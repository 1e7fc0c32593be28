/** Slash-separated paths, as built by common/configtx and common/policies. */
module Paths {

  /** A name that can be one element of a path. */
  predicate SlashFree(name: string) {
    '/' !in name
  }

  predicate AllSlashFree(names: seq<string>) {
    forall i | 0 <= i < |names| :: SlashFree(names[i])
  }

  /** A path extended by one name. */
  function Slashed(path: string, name: string): string {
    path + "/" + name
  }

  /** strings.Join(names, "/") */
  function Join(names: seq<string>): string {
    if |names| == 0 then ""
    else if |names| == 1 then names[0]
    else names[0] + "/" + Join(names[1..])
  }

  /** Every name preceded by a slash: "/a/b/c". */
  function Rooted(names: seq<string>): string {
    if |names| == 0 then "" else "/" + names[0] + Rooted(names[1..])
  }

  lemma {:induction false} JoinRooted(names: seq<string>)
    requires names != []
    ensures "/" + Join(names) == Rooted(names)
  {
    if |names| > 1 {
      JoinRooted(names[1..]);
      assert "/" + Join(names) == "/" + names[0] + ("/" + Join(names[1..]));
    }
  }

  lemma {:induction false} RootedConcat(a: seq<string>, b: seq<string>)
    ensures Rooted(a + b) == Rooted(a) + Rooted(b)
  {
    if a == [] {
      assert a + b == b;
    } else {
      assert (a + b)[1..] == a[1..] + b;
      calc {
        Rooted(a + b);
        "/" + a[0] + Rooted(a[1..] + b);
        { RootedConcat(a[1..], b); }
        "/" + a[0] + (Rooted(a[1..]) + Rooted(b));
        ("/" + a[0] + Rooted(a[1..])) + Rooted(b);
      }
    }
  }

  /** Joining in two steps. */
  lemma JoinJoin(a: seq<string>, b: seq<string>)
    requires b != []
    ensures Join(a + [Join(b)]) == Join(a + b)
  {
    hide Join, Rooted;
    JoinRooted(b);
    JoinRooted(a + b);
    JoinRooted(a + [Join(b)]);
    RootedConcat(a, b);
    RootedAppend(a, Join(b));
    assert Rooted(a) + "/" + Join(b) == Rooted(a) + ("/" + Join(b));
    assert Join(a + [Join(b)]) == ("/" + Join(a + [Join(b)]))[1..] && Join(a + b) == ("/" + Join(a + b))[1..];
  }

  lemma RootedAppend(a: seq<string>, name: string)
    ensures Rooted(a + [name]) == Rooted(a) + "/" + name
  {
    RootedConcat(a, [name]);
    assert Rooted([name]) == "/" + name + Rooted([]);
  }

  /** The first slash decides where a name ends. */
  lemma NameEndsAtSlash(x: string, r: string, y: string, s: string)
    requires SlashFree(x) && SlashFree(y)
    requires r == "" || r[0] == '/'
    requires s == "" || s[0] == '/'
    requires x + r == y + s
    ensures x == y && r == s
  {
    var w := x + r;
    assert forall i | 0 <= i < |x| :: w[i] == x[i] != '/';
    assert forall i | 0 <= i < |y| :: w[i] == y[i] != '/';
    assert r != "" ==> w[|x|] == '/';
    assert s != "" ==> w[|y|] == '/';
    assert x == (x + r)[..|x|] && y == (y + s)[..|y|];
    assert r == (x + r)[|x|..] && s == (y + s)[|y|..];
  }

  /** A joined path determines its elements when no element contains a slash. */
  lemma {:induction false} RootedInjective(a: seq<string>, b: seq<string>)
    requires AllSlashFree(a) && AllSlashFree(b)
    requires Rooted(a) == Rooted(b)
    ensures a == b
  {
    if a != [] && b != [] {
      assert a[0] + Rooted(a[1..]) == Rooted(a)[1..];
      assert b[0] + Rooted(b[1..]) == Rooted(b)[1..];
      NameEndsAtSlash(a[0], Rooted(a[1..]), b[0], Rooted(b[1..]));
      RootedInjective(a[1..], b[1..]);
      assert a == [a[0]] + a[1..] && b == [b[0]] + b[1..];
    }
  }

  /** strings.Split on a one-character separator. */
  function Split(s: string, sep: char): (names: seq<string>)
    ensures |names| > 0
  {
    if s == "" then [""]
    else
      var rest := Split(s[1..], sep);
      if s[0] == sep then [""] + rest else [[s[0]] + rest[0]] + rest[1..]
  }

  /** Splitting is the one way to write s as slash-free names joined by slashes. */
  lemma {:induction false} SplitJoin(s: string)
    ensures Join(Split(s, '/')) == s && AllSlashFree(Split(s, '/'))
  {
    if s != "" {
      var rest := Split(s[1..], '/');
      SplitJoin(s[1..]);
      if s[0] == '/' {
        assert ([""] + rest)[1..] == rest;
      } else {
        var names := [[s[0]] + rest[0]] + rest[1..];
        assert names[1..] == rest[1..];
        assert Join(names) == [s[0]] + Join(rest);
      }
    }
  }

  lemma {:induction false} SplitSlashFree(s: string)
    requires SlashFree(s)
    ensures Split(s, '/') == [s]
  {
    if s != "" {
      SplitSlashFree(s[1..]);
      assert [s[0]] + s[1..] == s;
    }
  }

  /** Slash-free names are found again in what they are joined to. */
  lemma {:induction false} SplitOfJoin(names: seq<string>)
    requires names != [] && AllSlashFree(names)
    ensures Split(Join(names), '/') == names
  {
    SplitJoin(Join(names));
    JoinRooted(names);
    JoinRooted(Split(Join(names), '/'));
    RootedInjective(names, Split(Join(names), '/'));
  }
}
