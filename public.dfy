/**
 * The rights check of the public user-info model: a user's rights are a map
 * from module name to the list of permissions granted in that module, with
 * "*" as a wildcard both for the whole map and inside one module's list.
 */
module Public {
  import opened Wrappers

  /** The user-info record; only `rights` is read by `has_right`. */
  datatype UserRight = UserRight(userId: int, userName: string, userPic: string, rights: map<string, seq<string>>)

  /**
   * Python's `s.split(c, 1)`: the text before the first `c` and, when there
   * is one, the text after it.
   */
  function SplitOnce(s: string, c: char): (r: (string, Option<string>))
    ensures c !in r.0
    ensures r.1.None? <==> c !in s
    ensures r.1.None? ==> r.0 == s
    ensures r.1.Some? ==> s == r.0 + [c] + r.1.value
    decreases |s|
  {
    if |s| == 0 then ("", None)
    else if s[0] == c then ("", Some(s[1..]))
    else
      var rest := SplitOnce(s[1..], c);
      assert s == [s[0]] + s[1..];
      ([s[0]] + rest.0, rest.1)
  }

  /** A text with `c` in it splits at its first `c`: the head is whatever precedes it, the tail may hold more `c`s. */
  lemma {:induction false} SplitOnceAt(head: string, c: char, tail: string)
    requires c !in head
    ensures SplitOnce(head + [c] + tail, c) == (head, Some(tail))
    decreases |head|
  {
    var s := head + [c] + tail;
    if |head| > 0 {
      assert s[1..] == head[1..] + [c] + tail;
      SplitOnceAt(head[1..], c, tail);
      assert [s[0]] + head[1..] == head;
    } else {
      assert s[1..] == tail;
    }
  }

  /** `UserRight.has_right`. */
  function HasRight(user: UserRight, right: string): (r: bool)
    ensures |user.rights| == 0 ==> !r
    ensures |user.rights| > 0 && "*" in user.rights ==> r
    ensures r ==> SplitOnce(right, '.').0 in user.rights || "*" in user.rights
  {
    if |user.rights| == 0 then false
    else if "*" in user.rights then true
    else
      var (moduleName, rest) := SplitOnce(right, '.');
      if moduleName !in user.rights then false
      else if rest.None? then true
      else
        var permissions := user.rights[moduleName];
        "*" in permissions || rest.value in permissions
  }

  /** An empty rights map grants nothing, whatever the right. */
  lemma EmptyRightsGrantNothing(user: UserRight, right: string)
    requires user.rights == map[]
    ensures !HasRight(user, right)
  {
    assert |user.rights| == 0;
  }

  /** A "*" key grants every right. */
  lemma WildcardGrantsAll(user: UserRight, right: string)
    requires "*" in user.rights
    ensures HasRight(user, right)
  {
    assert |user.rights| > 0 by {
      assert "*" in user.rights.Keys;
    }
  }

  /** Without the wildcard key, a right without a dot is granted exactly when it names a module of the map. */
  lemma UndottedRight(user: UserRight, right: string)
    requires "*" !in user.rights && '.' !in right
    ensures HasRight(user, right) <==> right in user.rights
  {
    if right in user.rights {
      assert right in user.rights.Keys;
      assert |user.rights| > 0;
    }
  }

  /**
   * Without the wildcard key, "module.rest" is granted exactly when the
   * module is a key and its list holds "*" or the whole remainder, which
   * may itself contain dots.
   */
  lemma DottedRight(user: UserRight, moduleName: string, rest: string)
    requires "*" !in user.rights && '.' !in moduleName
    ensures HasRight(user, moduleName + "." + rest)
        <==> moduleName in user.rights && ("*" in user.rights[moduleName] || rest in user.rights[moduleName])
  {
    SplitOnceAt(moduleName, '.', rest);
    if moduleName in user.rights {
      assert moduleName in user.rights.Keys;
      assert |user.rights| > 0;
    }
  }
}
