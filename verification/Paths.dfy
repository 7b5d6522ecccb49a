/** Path strings: the Python string operations the VFS uses, and what they say about components. */
module Paths {
  // ---------------------------------------------------------------- Python string operations

  /** `s.split("/")`: always at least one part, parts may be empty. */
  function Split(s: string): (r: seq<string>)
    ensures |r| >= 1
  {
    if s == "" then [""]
    else
      Prepend(s[0], Split(s[1..]))
  }

  /** `"/".join(parts)`. */
  function Join(parts: seq<string>): string {
    if parts == [] then ""
    else if |parts| == 1 then parts[0]
    else parts[0] + "/" + Join(parts[1..])
  }

  /** `s.rstrip("/")`. */
  function RStrip(s: string): string {
    if s != "" && s[|s| - 1] == '/' then RStrip(s[..|s| - 1]) else s
  }

  /** `s[n:]`, empty when n is past the end. */
  function Drop(s: string, n: nat): string {
    if n <= |s| then s[n..] else ""
  }

  function NonEmpty(parts: seq<string>): seq<string> {
    if parts == [] then [] else (if parts[0] != "" then [parts[0]] else []) + NonEmpty(parts[1..])
  }

  /** `[p for p in s.split("/") if p]`. */
  function Comps(s: string): seq<string> {
    NonEmpty(Split(s))
  }

  /** `"/".join(path.rstrip("/").split("/")[:-1]) or "/"`. */
  function ParentPath(path: string): string {
    var parts := Split(RStrip(path));
    var p := Join(parts[..|parts| - 1]);
    if p == "" then "/" else p
  }

  /** `path.rstrip("/").split("/")[-1]`. */
  function LastName(path: string): string {
    var parts := Split(RStrip(path));
    parts[|parts| - 1]
  }

  // ---------------------------------------------------------------- canonical paths

  /** A name that survives in a path: not empty and without a slash. */
  predicate ValidName(name: string) {
    name != "" && '/' !in name
  }

  ghost predicate ValidNames(cs: seq<string>) {
    forall i :: 0 <= i < |cs| ==> ValidName(cs[i])
  }

  function Slashed(cs: seq<string>): string {
    if cs == [] then "" else "/" + cs[0] + Slashed(cs[1..])
  }

  /** The absolute path without repeated or trailing slashes that has these components. */
  function Render(cs: seq<string>): string {
    if cs == [] then "/" else Slashed(cs)
  }

  // ---------------------------------------------------------------- splitting

  lemma {:induction false} SplitNoSlash(s: string)
    requires '/' !in s
    ensures Split(s) == [s]
    decreases |s|
  {
    if s != "" {
      assert s[0] in s;
      assert '/' !in s[1..];
      SplitNoSlash(s[1..]);
      assert [s[0]] + s[1..] == s;
    }
  }

  /** What one more character in front does to the parts of a split string. */
  function Prepend(c: char, parts: seq<string>): seq<string>
    requires |parts| >= 1
  {
    if c == '/' then [""] + parts else [[c] + parts[0]] + parts[1..]
  }

  lemma PrependSplit(c: char, x: seq<string>, y: seq<string>)
    requires |x| >= 1
    ensures Prepend(c, x + y) == Prepend(c, x) + y
  {
    assert (x + y)[0] == x[0] && (x + y)[1..] == x[1..] + y;
    if c != '/' {
      var head := [c] + x[0];
      assert [head] + (x[1..] + y) == ([head] + x[1..]) + y;
    } else {
      assert [""] + (x + y) == ([""] + x) + y;
    }
  }

  /** Splitting at a slash splits both sides. */
  lemma {:induction false} SplitAt(a: string, b: string)
    ensures Split(a + "/" + b) == Split(a) + Split(b)
    decreases |a|
  {
    var s := a + "/" + b;
    if a == "" {
      assert s == "/" + b;
      assert s[1..] == b;
    } else {
      assert s[0] == a[0] && s[1..] == a[1..] + "/" + b;
      SplitAt(a[1..], b);
      PrependSplit(a[0], Split(a[1..]), Split(b));
    }
  }

  lemma {:induction false} NonEmptyConcat(a: seq<string>, b: seq<string>)
    ensures NonEmpty(a + b) == NonEmpty(a) + NonEmpty(b)
    decreases |a|
  {
    if a == [] {
      assert a + b == b;
    } else {
      assert (a + b)[0] == a[0] && (a + b)[1..] == a[1..] + b;
      NonEmptyConcat(a[1..], b);
      var first := if a[0] != "" then [a[0]] else [];
      assert first + (NonEmpty(a[1..]) + NonEmpty(b)) == (first + NonEmpty(a[1..])) + NonEmpty(b);
    }
  }

  /** Components concatenate across a slash. */
  lemma CompsAt(a: string, b: string)
    ensures Comps(a + "/" + b) == Comps(a) + Comps(b)
  {
    SplitAt(a, b);
    NonEmptyConcat(Split(a), Split(b));
  }

  lemma CompsEmpty()
    ensures Comps("") == []
  {
    assert Split("") == [""];
    assert [""][1..] == [];
  }

  lemma CompsName(name: string)
    requires ValidName(name)
    ensures Comps(name) == [name]
  {
    SplitNoSlash(name);
    assert [name][1..] == [];
    assert NonEmpty([name]) == [name] + NonEmpty([]);
  }

  /** A leading or a trailing slash adds no component. */
  lemma CompsSlash(s: string)
    ensures Comps("/" + s) == Comps(s) && Comps(s + "/") == Comps(s)
  {
    CompsAt("", s);
    CompsAt(s, "");
    CompsEmpty();
    assert "" + "/" + s == "/" + s;
    assert s + "/" + "" == s + "/";
  }

  lemma {:induction false} CompsRStrip(s: string)
    ensures Comps(RStrip(s)) == Comps(s)
    decreases |s|
  {
    if s != "" && s[|s| - 1] == '/' {
      CompsRStrip(s[..|s| - 1]);
      CompsSlash(s[..|s| - 1]);
      assert s[..|s| - 1] + "/" == s;
    }
  }

  lemma {:induction false} JoinSplit(s: string)
    ensures Join(Split(s)) == s
    decreases |s|
  {
    if s != "" {
      JoinSplit(s[1..]);
      var rest := Split(s[1..]);
      if s[0] == '/' {
        assert ([""] + rest)[1..] == rest;
        assert Join([""] + rest) == "" + "/" + Join(rest);
      } else {
        var parts := [[s[0]] + rest[0]] + rest[1..];
        if |rest| == 1 {
          assert parts == [[s[0]] + rest[0]];
        } else {
          assert parts[1..] == rest[1..];
          assert Join(parts) == ([s[0]] + rest[0]) + "/" + Join(rest[1..]);
        }
      }
    }
  }

  /** The components of any string are non-empty and slash-free. */
  lemma CompsValid(s: string)
    ensures ValidNames(Comps(s))
  {
    SplitSlashFree(s);
    NonEmptyValid(Split(s));
  }

  lemma {:induction false} SplitSlashFree(s: string)
    ensures forall p :: p in Split(s) ==> '/' !in p
    decreases |s|
  {
    if s != "" {
      SplitSlashFree(s[1..]);
      var rest := Split(s[1..]);
      assert rest[0] in rest;
    }
  }

  lemma {:induction false} NonEmptyValid(parts: seq<string>)
    requires forall p :: p in parts ==> '/' !in p
    ensures ValidNames(NonEmpty(parts))
    decreases |parts|
  {
    if parts != [] {
      assert parts[0] in parts;
      NonEmptyValid(parts[1..]);
    }
  }

  // ---------------------------------------------------------------- parent and last name

  /** Cut a string with a slash at its last one. */
  lemma {:induction false} LastSlash(s: string) returns (a: string, name: string)
    requires '/' in s
    ensures s == a + "/" + name && '/' !in name
    decreases |s|
  {
    var n := |s| - 1;
    assert s == s[..n] + [s[n]];
    if s[n] == '/' {
      a, name := s[..n], "";
    } else {
      var name0;
      a, name0 := LastSlash(s[..n]);
      name := name0 + [s[n]];
    }
  }

  lemma {:induction false} RStripEnd(s: string)
    ensures RStrip(s) == "" || RStrip(s)[|RStrip(s)| - 1] != '/'
    ensures |RStrip(s)| <= |s| && RStrip(s) == s[..|RStrip(s)|]
    ensures forall i :: |RStrip(s)| <= i < |s| ==> s[i] == '/'
    decreases |s|
  {
    if s != "" && s[|s| - 1] == '/' {
      RStripEnd(s[..|s| - 1]);
    }
  }

  lemma RStripRoot()
    ensures RStrip("/") == "" && RStrip("/") + "/" == "/"
  {
    assert "/"[..0] == "" && RStrip("") == "";
  }

  /**
   For a path with a slash left after stripping, the parent and the name are the two sides of the
   last slash: the parent has one component less, and the name is that component.
   */
  lemma ParentAndName(path: string) returns (a: string)
    requires '/' in RStrip(path)
    ensures RStrip(path) == a + "/" + LastName(path)
    ensures ParentPath(path) == if a == "" then "/" else a
    ensures ValidName(LastName(path))
    ensures Comps(path) == Comps(ParentPath(path)) + [LastName(path)]
  {
    var s := RStrip(path);
    var name;
    a, name := LastSlash(s);
    RStripEnd(path);
    SplitAt(a, name);
    SplitNoSlash(name);
    assert (Split(a) + [name])[..|Split(a)|] == Split(a);
    JoinSplit(a);
    CompsRStrip(path);
    CompsAt(a, name);
    CompsName(name);
    if a == "" {
      CompsEmpty();
      CompsSlash("");
      assert "/" + "" == "/";
    }
  }

  /** Without a slash the parent is the root and the name is the whole stripped path. */
  lemma NoParent(path: string)
    requires '/' !in RStrip(path)
    ensures ParentPath(path) == "/" && LastName(path) == RStrip(path)
  {
    SplitNoSlash(RStrip(path));
    assert [RStrip(path)][..0] == [];
  }

  lemma {:induction false} CompsTrailing(s: string, slashes: string)
    requires forall i :: 0 <= i < |slashes| ==> slashes[i] == '/'
    ensures Comps(s + slashes) == Comps(s)
    decreases |slashes|
  {
    if slashes == "" {
      assert s + slashes == s;
    } else {
      var n := |slashes| - 1;
      CompsTrailing(s, slashes[..n]);
      CompsSlash(s + slashes[..n]);
      assert s + slashes == (s + slashes[..n]) + "/";
    }
  }

  /** From any point of the stripped part on, stripping trailing slashes does not change the components. */
  lemma CompsOfTail(path: string, k: nat)
    requires k <= |RStrip(path)|
    ensures k <= |path| && Comps(path[k..]) == Comps(RStrip(path)[k..])
  {
    RStripEnd(path);
    var s := RStrip(path);
    CompsTrailing(s[k..], path[|s|..]);
    assert path[k..] == s[k..] + path[|s|..];
  }

  // ---------------------------------------------------------------- rendering

  lemma {:induction false} SlashedComps(cs: seq<string>)
    requires ValidNames(cs)
    ensures Comps(Slashed(cs)) == cs
    ensures cs != [] ==> Slashed(cs) != "" && Slashed(cs)[0] == '/' && Slashed(cs)[|Slashed(cs)| - 1] != '/'
    decreases |cs|
  {
    if cs == [] {
      CompsEmpty();
    } else {
      SlashedComps(cs[1..]);
      SlashName(cs[0], Slashed(cs[1..]));
      assert cs == [cs[0]] + cs[1..];
    }
  }

  lemma SlashName(name: string, rest: string)
    requires ValidName(name) && (rest == "" || (rest[0] == '/' && rest[|rest| - 1] != '/'))
    ensures var s := "/" + name + rest;
            Comps(s) == [name] + Comps(rest) && s[0] == '/' && s[|s| - 1] != '/'
  {
    CompsName(name);
    CompsSlash(name + rest);
    assert "/" + name + rest == "/" + (name + rest);
    if rest == "" {
      CompsEmpty();
      assert name + rest == name;
    } else {
      CompsAt(name, rest[1..]);
      CompsSlash(rest[1..]);
      assert name + rest == name + "/" + rest[1..];
      assert rest == "/" + rest[1..];
    }
  }

  /** Reading back the components of a rendered path gives the components. */
  lemma RenderComps(cs: seq<string>)
    requires ValidNames(cs)
    ensures Comps(Render(cs)) == cs
    ensures Render(cs)[0] == '/'
    ensures cs != [] ==> Render(cs)[|Render(cs)| - 1] != '/'
  {
    SlashedComps(cs);
    if cs == [] {
      CompsSlash("");
      CompsEmpty();
      assert "/" + "" == "/";
    }
  }

  lemma {:induction false} SlashedConcat(a: seq<string>, b: seq<string>)
    ensures Slashed(a + b) == Slashed(a) + Slashed(b)
    decreases |a|
  {
    if a == [] {
      assert a + b == b;
    } else {
      assert (a + b)[0] == a[0] && (a + b)[1..] == a[1..] + b;
      SlashedConcat(a[1..], b);
    }
  }
}
