/**
 * The two derived display properties of a participant record: the full name
 * and the one-line postal address. Both collect the non-empty pieces in a
 * list and join them, so an empty field never leaves a stray separator.
 */
module ParticipantModel {
  import opened Text

  /** The six text fields of a participant that the display properties read. */
  datatype Participant = Participant(
    firstname: string,
    lastname: string,
    street: string,
    zip: string,
    city: string,
    country: string)

  /** `filter(None, pieces)` on texts: the non-empty ones, in order. */
  function NonEmpty(pieces: seq<string>): (r: seq<string>)
    ensures |r| <= |pieces|
    ensures forall i :: 0 <= i < |r| ==> r[i] != ""
    ensures forall x :: x in r <==> x in pieces && x != ""
  {
    if |pieces| == 0 then []
    else (if pieces[0] == "" then [] else [pieces[0]]) + NonEmpty(pieces[1..])
  }

  /** The pieces of a three-element list that survive the filter. */
  lemma NonEmptyOfThree(a: string, b: string, c: string)
    ensures NonEmpty([a, b, c]) == (if a == "" then [] else [a]) + (if b == "" then [] else [b]) + (if c == "" then [] else [c])
  {
    assert [a, b, c][1..] == [b, c];
    NonEmptyOfTwo(b, c);
  }

  /** The pieces of a two-element list that survive the filter. */
  lemma NonEmptyOfTwo(a: string, b: string)
    ensures NonEmpty([a, b]) == (if a == "" then [] else [a]) + (if b == "" then [] else [b])
  {
    assert [a, b][1..] == [b];
    assert [b][1..] == [];
  }

  /** Joining the non-empty pieces gives "" exactly when every piece is empty. */
  lemma JoinNonEmptyIsEmpty(pieces: seq<string>, sep: string)
    ensures Join(NonEmpty(pieces), sep) == "" <==> forall i :: 0 <= i < |pieces| ==> pieces[i] == ""
  {
    var kept := NonEmpty(pieces);
    if |kept| > 0 {
      assert kept[0] in pieces;
      assert Join(kept, sep) == kept[0] + (if |kept| == 1 then "" else sep + Join(kept[1..], sep));
    } else {
      forall i | 0 <= i < |pieces| ensures pieces[i] == "" {
        assert pieces[i] in pieces;
      }
    }
  }

  /** No space at either end of a text. */
  predicate Trimmed(s: string)
  {
    s == "" || (s[0] != ' ' && s[|s| - 1] != ' ')
  }

  /** The full name by its definition: the non-empty names, first then last, joined by one space. */
  function NameOf(p: Participant): string
  {
    Join(NonEmpty([p.firstname, p.lastname]), " ")
  }

  /** `Participant.full_name`. */
  method FullName(p: Participant) returns (name: string)
    ensures name == NameOf(p)
    ensures p.firstname != "" && p.lastname != "" ==> name == p.firstname + " " + p.lastname
    ensures p.firstname == "" ==> name == p.lastname
    ensures p.lastname == "" ==> name == p.firstname
    ensures Trimmed(p.firstname) && Trimmed(p.lastname) ==> Trimmed(name)
  {
    var parts: seq<string> := [];
    if p.firstname != "" {
      parts := parts + [p.firstname];
    }
    if p.lastname != "" {
      parts := parts + [p.lastname];
    }
    name := Join(parts, " ");
    NonEmptyOfTwo(p.firstname, p.lastname);
    assert NonEmpty([p.firstname, p.lastname]) == parts;
    if p.firstname != "" && p.lastname != "" {
      assert parts == [p.firstname, p.lastname];
      assert parts[1..] == [p.lastname];
      assert Join(parts[1..], " ") == p.lastname;
      assert name == p.firstname + " " + p.lastname;
      assert name[0] == p.firstname[0];
      assert name[|name| - 1] == p.lastname[|p.lastname| - 1];
    }
  }

  /** `" ".join(filter(None, [zip, city]))`: postcode and town with one space, an empty one left out. */
  function CityLine(zip: string, city: string): (r: string)
    ensures r == "" <==> zip == "" && city == ""
    ensures zip != "" && city != "" ==> r == zip + " " + city
    ensures zip == "" ==> r == city
    ensures city == "" ==> r == zip
  {
    NonEmptyOfTwo(zip, city);
    JoinNonEmptyIsEmpty([zip, city], " ");
    Join(NonEmpty([zip, city]), " ")
  }

  /** The address by its definition: street, city line and country, the empty ones left out, joined by ", ". */
  function AddressOf(p: Participant): string
  {
    Join(NonEmpty([p.street, CityLine(p.zip, p.city), p.country]), ", ")
  }

  /** `Participant.full_address`. */
  method FullAddress(p: Participant) returns (address: string)
    ensures address == AddressOf(p)
    ensures address == "" <==> p.street == "" && p.zip == "" && p.city == "" && p.country == ""
  {
    var parts: seq<string> := [];
    if p.street != "" {
      parts := parts + [p.street];
    }
    if p.zip != "" || p.city != "" {
      var cityPart := CityLine(p.zip, p.city);
      parts := parts + [cityPart];
    }
    if p.country != "" {
      parts := parts + [p.country];
    }
    address := Join(parts, ", ");
    var pieces := [p.street, CityLine(p.zip, p.city), p.country];
    NonEmptyOfThree(p.street, CityLine(p.zip, p.city), p.country);
    assert NonEmpty(pieces) == parts;
    JoinNonEmptyIsEmpty(pieces, ", ");
  }

  /** With street, postcode and town but no country, the address is "street, postcode town". */
  lemma StreetAndTownAddress(p: Participant)
    requires p.street != "" && p.zip != "" && p.city != "" && p.country == ""
    ensures AddressOf(p) == p.street + ", " + p.zip + " " + p.city
  {
    var town := CityLine(p.zip, p.city);
    NonEmptyOfThree(p.street, town, p.country);
    assert NonEmpty([p.street, town, p.country]) == [p.street, town];
    assert [p.street, town][1..] == [town];
    assert Join([town], ", ") == town;
  }
}
