/** The mount table: kept sorted by descending path length, scanned for the first match. */
module MountModel {
  import opened Prelude
  import opened Paths

  /** A filesystem, identified by number, at a path. */
  datatype Mount = Mount(path: string, fs: int)

  // ---------------------------------------------------------------- the table

  /** Put m behind every mount that is at least as long: one step of a stable descending sort. */
  function Insert(ms: seq<Mount>, m: Mount): seq<Mount> {
    if ms == [] then [m]
    else if |ms[0].path| < |m.path| then [m] + ms
    else [ms[0]] + Insert(ms[1..], m)
  }

  /** `sort(key=len, reverse=True)`, which is stable. */
  function SortByLength(ms: seq<Mount>): seq<Mount> {
    if ms == [] then [] else Insert(SortByLength(ms[..|ms| - 1]), ms[|ms| - 1])
  }

  function AddMount(ms: seq<Mount>, m: Mount): seq<Mount> {
    SortByLength(ms + [m])
  }

  predicate Matches(path: string, mountpoint: string) {
    path == mountpoint || RStrip(mountpoint) + "/" <= path
  }

  /** The scan over the mounts, with the best candidate so far. */
  function PickFrom(ms: seq<Mount>, path: string, best: Option<Mount>): Option<Mount> {
    if ms == [] then best
    else if Matches(path, ms[0].path) then Some(ms[0])
    else PickFrom(ms[1..], path, if ms[0].path == "/" && best.None? then Some(ms[0]) else best)
  }

  function Pick(ms: seq<Mount>, path: string): Option<Mount> {
    PickFrom(ms, path, None)
  }

  /** What is left of the path below the mount. */
  function Rest(m: Mount, path: string): string {
    Drop(path, |m.path|)
  }

  // ---------------------------------------------------------------- sorting

  ghost predicate Sorted(ms: seq<Mount>) {
    forall i, j :: 0 <= i < j < |ms| ==> |ms[i].path| >= |ms[j].path|
  }

  lemma {:induction false} InsertMultiset(ms: seq<Mount>, m: Mount)
    ensures multiset(Insert(ms, m)) == multiset(ms) + multiset{m}
    ensures forall x :: x in Insert(ms, m) <==> x in ms || x == m
    decreases |ms|
  {
    if ms != [] {
      assert ms == [ms[0]] + ms[1..];
      InsertMultiset(ms[1..], m);
    }
  }

  lemma {:induction false} InsertSorted(ms: seq<Mount>, m: Mount)
    requires Sorted(ms)
    ensures Sorted(Insert(ms, m))
    decreases |ms|
  {
    if ms != [] && |ms[0].path| >= |m.path| {
      InsertSorted(ms[1..], m);
      InsertMultiset(ms[1..], m);
      var rest := Insert(ms[1..], m);
      forall j | 0 <= j < |rest| ensures |ms[0].path| >= |rest[j].path| {
        assert rest[j] in rest;
      }
    }
  }

  lemma {:induction false} SortSorted(ms: seq<Mount>)
    ensures Sorted(SortByLength(ms))
    ensures multiset(SortByLength(ms)) == multiset(ms)
    ensures forall x :: x in SortByLength(ms) <==> x in ms
    decreases |ms|
  {
    if ms != [] {
      var n := |ms| - 1;
      assert ms == ms[..n] + [ms[n]];
      SortSorted(ms[..n]);
      InsertSorted(SortByLength(ms[..n]), ms[n]);
      InsertMultiset(SortByLength(ms[..n]), ms[n]);
    }
  }

  lemma {:induction false} InsertLast(ms: seq<Mount>, m: Mount)
    requires forall i :: 0 <= i < |ms| ==> |ms[i].path| >= |m.path|
    ensures Insert(ms, m) == ms + [m]
    decreases |ms|
  {
    if ms != [] {
      InsertLast(ms[1..], m);
    }
  }

  lemma {:induction false} SortOfSorted(ms: seq<Mount>)
    requires Sorted(ms)
    ensures SortByLength(ms) == ms
    decreases |ms|
  {
    if ms != [] {
      var n := |ms| - 1;
      SortOfSorted(ms[..n]);
      InsertLast(ms[..n], ms[n]);
      assert ms[..n] + [ms[n]] == ms;
    }
  }

  /** Mounting onto a sorted table inserts one entry. */
  lemma AddMountInserts(ms: seq<Mount>, m: Mount)
    requires Sorted(ms)
    ensures AddMount(ms, m) == Insert(ms, m) && Sorted(AddMount(ms, m))
    ensures forall x :: x in AddMount(ms, m) <==> x in ms || x == m
  {
    assert (ms + [m])[..|ms|] == ms;
    SortOfSorted(ms);
    InsertSorted(ms, m);
    InsertMultiset(ms, m);
  }

  // ---------------------------------------------------------------- picking, for arbitrary strings

  ghost predicate NoMatch(ms: seq<Mount>, path: string) {
    forall i :: 0 <= i < |ms| ==> !Matches(path, ms[i].path)
  }

  /** The first match wins, wherever it is and whatever the best candidate before it. */
  lemma {:induction false} PickFirst(ms: seq<Mount>, path: string, best: Option<Mount>, k: nat)
    requires k < |ms| && Matches(path, ms[k].path) && NoMatch(ms[..k], path)
    ensures PickFrom(ms, path, best) == Some(ms[k])
    decreases |ms|
  {
    if k > 0 {
      assert !Matches(path, ms[..k][0].path);
      var before := ms[1..][..k - 1];
      forall i | 0 <= i < |before| ensures !Matches(path, before[i].path) {
        assert before[i] == ms[..k][i + 1];
      }
      PickFirst(ms[1..], path, if ms[0].path == "/" && best.None? then Some(ms[0]) else best, k - 1);
    }
  }

  lemma {:induction false} FirstMatch(ms: seq<Mount>, path: string) returns (k: nat)
    requires !NoMatch(ms, path)
    ensures k < |ms| && Matches(path, ms[k].path) && NoMatch(ms[..k], path)
    decreases |ms|
  {
    if Matches(path, ms[0].path) {
      k := 0;
    } else {
      var i :| 0 <= i < |ms| && Matches(path, ms[i].path);
      assert ms[1..][i - 1] == ms[i];
      var k' := FirstMatch(ms[1..], path);
      k := k' + 1;
      forall j | 0 <= j < k ensures !Matches(path, ms[..k][j].path) {
        if j > 0 {
          assert ms[..k][j] == ms[1..][..k'][j - 1];
        }
      }
    }
  }

  /** Without a match a candidate once found stays; otherwise the first mount at "/" is taken. */
  lemma {:induction false} PickFallback(ms: seq<Mount>, path: string, best: Option<Mount>)
    requires NoMatch(ms, path)
    ensures best.Some? ==> PickFrom(ms, path, best) == best
    ensures PickFrom(ms, path, best).Some? ==> PickFrom(ms, path, best) == best || PickFrom(ms, path, best).value in ms
    ensures PickFrom(ms, path, best).None? <==> best.None? && forall m :: m in ms ==> m.path != "/"
    ensures best.None? && PickFrom(ms, path, best).Some? ==> PickFrom(ms, path, best).value.path == "/"
    decreases |ms|
  {
    if ms != [] {
      assert forall i :: 0 <= i < |ms| - 1 ==> ms[1..][i] == ms[i + 1];
      PickFallback(ms[1..], path, if ms[0].path == "/" && best.None? then Some(ms[0]) else best);
      assert forall m :: m in ms <==> m == ms[0] || m in ms[1..];
    }
  }

  lemma PickMember(ms: seq<Mount>, path: string)
    requires Pick(ms, path).Some?
    ensures Pick(ms, path).value in ms
    ensures Matches(path, Pick(ms, path).value.path) || Pick(ms, path).value.path == "/"
  {
    if NoMatch(ms, path) {
      PickFallback(ms, path, None);
    } else {
      var k := FirstMatch(ms, path);
      PickFirst(ms, path, None, k);
    }
  }

  /** A new mount that does not match a path leaves its resolution alone, if it had one. */
  lemma {:induction false} PickUnaffected(ms: seq<Mount>, m: Mount, path: string, best: Option<Mount>)
    requires Sorted(ms) && !Matches(path, m.path) && PickFrom(ms, path, best).Some?
    ensures PickFrom(Insert(ms, m), path, best) == PickFrom(ms, path, best)
    decreases |ms|
  {
    if ms == [] {
      assert [m][1..] == [];
    } else if |ms[0].path| < |m.path| {
      assert ([m] + ms)[1..] == ms;
      if NoMatch(ms, path) {
        if best.None? && m.path == "/" {
          PickFallback(ms, path, best);
        }
      } else {
        var k := FirstMatch(ms, path);
        PickFirst(ms, path, best, k);
        PickFirst(ms, path, Some(m), k);
      }
    } else if !Matches(path, ms[0].path) {
      assert ([ms[0]] + Insert(ms[1..], m))[1..] == Insert(ms[1..], m);
      PickUnaffected(ms[1..], m, path, if ms[0].path == "/" && best.None? then Some(ms[0]) else best);
    }
  }

  /** Mounting again at the same path never shadows the earlier mount: no path resolves differently. */
  lemma {:induction false} RemountInert(ms: seq<Mount>, m: Mount, path: string, best: Option<Mount>)
    requires exists x :: x in ms && x.path == m.path
    requires Sorted(ms)
    ensures PickFrom(Insert(ms, m), path, best) == PickFrom(ms, path, best)
    decreases |ms|
  {
    var x :| x in ms && x.path == m.path;
    var i :| 0 <= i < |ms| && ms[i] == x;
    assert |ms[0].path| >= |m.path|;
    assert ([ms[0]] + Insert(ms[1..], m))[1..] == Insert(ms[1..], m);
    if !Matches(path, ms[0].path) {
      var best' := if ms[0].path == "/" && best.None? then Some(ms[0]) else best;
      if ms[0].path == m.path {
        InsertAfterTwin(ms[1..], m, path, best');
      } else {
        assert ms[1..][i - 1] == x;
        RemountInert(ms[1..], m, path, best');
      }
    }
  }

  lemma {:induction false} InsertAfterTwin(ms: seq<Mount>, m: Mount, path: string, best: Option<Mount>)
    requires !Matches(path, m.path) && (m.path == "/" ==> best.Some?)
    ensures PickFrom(Insert(ms, m), path, best) == PickFrom(ms, path, best)
    decreases |ms|
  {
    if ms == [] {
      assert [m][1..] == [];
    } else if |ms[0].path| < |m.path| {
      assert ([m] + ms)[1..] == ms;
    } else if !Matches(path, ms[0].path) {
      assert ([ms[0]] + Insert(ms[1..], m))[1..] == Insert(ms[1..], m);
      InsertAfterTwin(ms[1..], m, path, if ms[0].path == "/" && best.None? then Some(ms[0]) else best);
    }
  }

  /**
   When a new mount is picked for a path: it matches, and what was picked matched less of the path
   or only stood in as the mount at "/"; or nothing was picked and it is a mount at "/".
   */
  predicate TakesOver(ms: seq<Mount>, m: Mount, path: string) {
    match Pick(ms, path)
    case None => Matches(path, m.path) || m.path == "/"
    case Some(b) => Matches(path, m.path) && (!Matches(path, b.path) || |b.path| < |m.path|)
  }

  lemma {:induction false} InsertAt(ms: seq<Mount>, m: Mount) returns (k: nat)
    requires Sorted(ms)
    ensures k <= |ms| && Insert(ms, m) == ms[..k] + [m] + ms[k..]
    ensures forall i :: 0 <= i < |ms| ==> (i < k <==> |ms[i].path| >= |m.path|)
    decreases |ms|
  {
    if ms == [] || |ms[0].path| < |m.path| {
      k := 0;
    } else {
      var k' := InsertAt(ms[1..], m);
      k := k' + 1;
      assert ms[..k] == [ms[0]] + ms[1..][..k'] && ms[k..] == ms[1..][k'..];
      forall i | 0 <= i < |ms| ensures i < k <==> |ms[i].path| >= |m.path| {
        assert i > 0 ==> ms[i] == ms[1..][i - 1];
      }
    }
  }

  /** For any table and any string, a new mount is picked exactly when it takes over; else nothing changes. */
  lemma PickAfterMount(ms: seq<Mount>, m: Mount, path: string)
    requires Sorted(ms)
    ensures Pick(AddMount(ms, m), path) == if TakesOver(ms, m, path) then Some(m) else Pick(ms, path)
  {
    AddMountInserts(ms, m);
    if Matches(path, m.path) {
      PickAfterMatch(ms, m, path);
    } else if Pick(ms, path).Some? {
      PickUnaffected(ms, m, path, None);
    } else {
      PickAfterNone(ms, m, path);
    }
  }

  lemma PickAfterMatch(ms: seq<Mount>, m: Mount, path: string)
    requires Sorted(ms) && Matches(path, m.path)
    ensures Pick(Insert(ms, m), path) == if TakesOver(ms, m, path) then Some(m) else Pick(ms, path)
  {
    var k := InsertAt(ms, m);
    var s := Insert(ms, m);
    if NoMatch(ms, path) {
      PickFallback(ms, path, None);
      assert NoMatch(s[..k], path) by {
        assert forall i :: 0 <= i < k ==> s[..k][i] == ms[i];
      }
      PickFirst(s, path, None, k);
      if Pick(ms, path).Some? {
        var b := Pick(ms, path).value;
        var i :| 0 <= i < |ms| && ms[i] == b;
      }
    } else {
      var j := FirstMatch(ms, path);
      PickFirst(ms, path, None, j);
      if j < k {
        assert s[..j] == ms[..j] && s[j] == ms[j];
        PickFirst(s, path, None, j);
      } else {
        assert NoMatch(s[..k], path) by {
          assert forall i :: 0 <= i < k ==> s[..k][i] == ms[..j][i];
        }
        PickFirst(s, path, None, k);
      }
    }
  }

  lemma PickAfterNone(ms: seq<Mount>, m: Mount, path: string)
    requires Sorted(ms) && !Matches(path, m.path) && Pick(ms, path).None?
    ensures Pick(Insert(ms, m), path) == if m.path == "/" then Some(m) else None
  {
    if !NoMatch(ms, path) {
      var j := FirstMatch(ms, path);
      PickFirst(ms, path, None, j);
    }
    PickFallback(ms, path, None);
    var s := Insert(ms, m);
    InsertMultiset(ms, m);
    assert NoMatch(s, path) by {
      forall i | 0 <= i < |s| ensures !Matches(path, s[i].path) {
        assert s[i] in s;
        if s[i] in ms {
          var j :| 0 <= j < |ms| && ms[j] == s[i];
        }
      }
    }
    PickFallback(s, path, None);
  }

  // ---------------------------------------------------------------- picking, by components

  /** An absolute path with these components, possibly with one trailing slash. */
  ghost predicate PathWith(path: string, cs: seq<string>) {
    && ValidNames(cs)
    && (path == Render(cs) || (cs != [] && path == Slashed(cs) + "/"))
  }

  /** Mountpoints are written without repeated or trailing slashes, and differ. */
  ghost predicate Canonical(ms: seq<Mount>) {
    && (forall m :: m in ms ==> ValidNames(Comps(m.path)) && m.path == Render(Comps(m.path)))
    && (forall i, j :: 0 <= i < j < |ms| ==> ms[i].path != ms[j].path)
  }

  lemma PathWithComps(path: string, cs: seq<string>)
    requires PathWith(path, cs)
    ensures Comps(path) == cs && path != "" && path[0] == '/'
  {
    RenderComps(cs);
    CompsSlash(Slashed(cs));
    SlashedComps(cs);
  }

  lemma RenderRStrip(cs: seq<string>)
    requires ValidNames(cs)
    ensures RStrip(Render(cs)) == Slashed(cs)
  {
    RenderComps(cs);
    if cs == [] {
      assert "/"[..0] == "";
    }
  }

  lemma RootMatch(path: string, cs: seq<string>)
    requires PathWith(path, cs)
    ensures Matches(path, "/") && Comps(Drop(path, 1)) == cs
  {
    PathWithComps(path, cs);
    RStripRoot();
    CompsSlash(Drop(path, 1));
    assert "/" + Drop(path, 1) == path;
  }

  /** A string match below the root is a component prefix, with the remaining components left over. */
  lemma MatchGivesPrefix(path: string, cs: seq<string>, mcs: seq<string>)
    requires Comps(path) == cs && ValidNames(mcs) && mcs != []
    requires path == Slashed(mcs) || Slashed(mcs) + "/" <= path
    ensures mcs <= cs && Comps(Drop(path, |Slashed(mcs)|)) == cs[|mcs|..]
  {
    SlashedComps(mcs);
    var m := Slashed(mcs);
    if path == m {
      CompsEmpty();
      assert Drop(path, |m|) == "";
    } else {
      var tail := path[|m| + 1..];
      assert path == m + "/" + tail;
      CompsAt(m, tail);
      assert Drop(path, |m|) == "/" + tail;
      CompsSlash(tail);
      assert cs == mcs + Comps(tail);
    }
  }

  lemma PrefixGivesMatch(path: string, cs: seq<string>, mcs: seq<string>)
    requires PathWith(path, cs) && mcs != [] && mcs <= cs
    ensures path == Slashed(mcs) || Slashed(mcs) + "/" <= path
  {
    var m := Slashed(mcs);
    var tail := cs[|mcs|..];
    assert cs == mcs + tail;
    SlashedConcat(mcs, tail);
    assert Slashed(cs) <= path;
    if tail != [] {
      SlashedStart(tail);
      assert Slashed(cs)[..|m| + 1] == m + "/";
    } else {
      assert Slashed(tail) == "" && Slashed(cs) == m;
    }
  }

  /** The string test is component-wise prefix, and the string left over has the components left over. */
  lemma MatchIsPrefix(path: string, cs: seq<string>, mcs: seq<string>)
    requires PathWith(path, cs) && ValidNames(mcs)
    ensures Matches(path, Render(mcs)) <==> mcs <= cs
    ensures mcs <= cs ==> Comps(Drop(path, |Render(mcs)|)) == cs[|mcs|..]
  {
    if mcs == [] {
      RootMatch(path, cs);
    } else {
      PathWithComps(path, cs);
      RenderRStrip(mcs);
      if Matches(path, Render(mcs)) {
        MatchGivesPrefix(path, cs, mcs);
      }
      if mcs <= cs {
        PrefixGivesMatch(path, cs, mcs);
        MatchGivesPrefix(path, cs, mcs);
      }
    }
  }

  lemma SlashedStart(cs: seq<string>)
    requires cs != []
    ensures Slashed(cs) != "" && Slashed(cs)[0] == '/'
  {
  }

  /** A longer component prefix is a longer string. */
  lemma LongerIsLonger(a: seq<string>, b: seq<string>)
    requires ValidNames(b) && a <= b && |a| < |b|
    ensures |Render(a)| < |Render(b)|
  {
    assert b == a + b[|a|..];
    SlashedConcat(a, b[|a|..]);
    var rest := b[|a|..];
    assert rest[0] == b[|a|] && ValidName(b[|a|]);
    SlashedStart(rest);
    assert |Slashed(rest)| >= 2;
  }

  /** m is the mount whose components are the longest prefix of cs. */
  ghost predicate Longest(ms: seq<Mount>, cs: seq<string>, m: Mount) {
    && m in ms && Comps(m.path) <= cs
    && forall x :: x in ms && Comps(x.path) <= cs ==> |Comps(x.path)| <= |Comps(m.path)|
  }

  /** The sorted scan finds exactly the longest component prefix, or nothing when there is none. */
  lemma PickIsLongest(ms: seq<Mount>, path: string, cs: seq<string>)
    requires Sorted(ms) && Canonical(ms) && PathWith(path, cs)
    ensures forall m :: Pick(ms, path) == Some(m) <==> Longest(ms, cs, m)
  {
    forall m | m in ms ensures Matches(path, m.path) <==> Comps(m.path) <= cs {
      MatchIsPrefix(path, cs, Comps(m.path));
    }
    if NoMatch(ms, path) {
      PickFallback(ms, path, None);
      forall m | m in ms ensures m.path != "/" {
        var i :| 0 <= i < |ms| && ms[i] == m;
        RootMatch(path, cs);
      }
      forall m | m in ms ensures !(Comps(m.path) <= cs) {
        var i :| 0 <= i < |ms| && ms[i] == m;
      }
    } else {
      var k := FirstMatch(ms, path);
      PickFirst(ms, path, None, k);
      FirstIsLongest(ms, path, cs, k);
      forall m | Longest(ms, cs, m) ensures m == ms[k] {
        PrefixesEqual(cs, Comps(m.path), Comps(ms[k].path));
        var i :| 0 <= i < |ms| && ms[i] == m;
      }
    }
  }

  lemma PrefixesEqual(cs: seq<string>, a: seq<string>, b: seq<string>)
    requires a <= cs && b <= cs && |a| == |b|
    ensures a == b
  {
  }

  lemma LaterNotLonger(ms: seq<Mount>, cs: seq<string>, k: nat, i: nat)
    requires Sorted(ms) && Canonical(ms) && k <= i < |ms|
    requires Comps(ms[k].path) <= cs && Comps(ms[i].path) <= cs
    ensures |Comps(ms[i].path)| <= |Comps(ms[k].path)|
  {
    var mine, other := Comps(ms[k].path), Comps(ms[i].path);
    assert ms[k] in ms && ms[i] in ms;
    if |other| > |mine| {
      LongerIsLonger(mine, other);
    }
  }

  lemma MatchNotBefore(ms: seq<Mount>, path: string, k: nat, i: nat)
    requires k < |ms| && NoMatch(ms[..k], path) && i < |ms| && Matches(path, ms[i].path)
    ensures k <= i
  {
    var before := ms[..k];
    assert forall j :: 0 <= j < k ==> before[j] == ms[j];
  }

  lemma OtherNotLonger(ms: seq<Mount>, path: string, cs: seq<string>, k: nat, i: nat)
    requires Sorted(ms) && Canonical(ms) && PathWith(path, cs)
    requires k < |ms| && Comps(ms[k].path) <= cs && NoMatch(ms[..k], path)
    requires i < |ms| && Comps(ms[i].path) <= cs
    ensures |Comps(ms[i].path)| <= |Comps(ms[k].path)|
  {
    var x := ms[i];
    assert x in ms;
    MatchIsPrefix(path, cs, Comps(x.path));
    MatchNotBefore(ms, path, k, i);
    LaterNotLonger(ms, cs, k, i);
  }

  lemma FirstIsLongest(ms: seq<Mount>, path: string, cs: seq<string>, k: nat)
    requires Sorted(ms) && Canonical(ms) && PathWith(path, cs)
    requires k < |ms| && Matches(path, ms[k].path) && NoMatch(ms[..k], path)
    ensures Longest(ms, cs, ms[k])
  {
    assert ms[k] in ms;
    MatchIsPrefix(path, cs, Comps(ms[k].path));
    forall x | x in ms && Comps(x.path) <= cs
      ensures |Comps(x.path)| <= |Comps(ms[k].path)|
    {
      var i :| 0 <= i < |ms| && ms[i] == x;
      OtherNotLonger(ms, path, cs, k, i);
    }
  }

  /** Mount order does not matter. */
  lemma OrderIndependent(a: seq<Mount>, b: seq<Mount>, path: string, cs: seq<string>)
    requires Canonical(a) && Canonical(b) && multiset(a) == multiset(b) && PathWith(path, cs)
    ensures Pick(SortByLength(a), path) == Pick(SortByLength(b), path)
  {
    SortSorted(a);
    SortSorted(b);
    SortCanonical(a);
    SortCanonical(b);
    PickIsLongest(SortByLength(a), path, cs);
    PickIsLongest(SortByLength(b), path, cs);
    assert forall x :: x in a <==> x in multiset(a);
    assert forall x :: x in b <==> x in multiset(b);
    assert forall m :: Longest(SortByLength(a), cs, m) <==> Longest(SortByLength(b), cs, m);
    var p, q := Pick(SortByLength(a), path), Pick(SortByLength(b), path);
    assert forall m :: p == Some(m) <==> q == Some(m);
    if p.Some? {
      assert p == Some(p.value);
    }
  }

  lemma SortCanonical(ms: seq<Mount>)
    requires Canonical(ms)
    ensures Canonical(SortByLength(ms))
  {
    SortSorted(ms);
    var s := SortByLength(ms);
    forall i, j | 0 <= i < j < |s| ensures s[i].path != s[j].path {
      if s[i].path == s[j].path {
        assert s[i] in ms && s[j] in ms;
        var p :| 0 <= p < |ms| && ms[p] == s[i];
        var q :| 0 <= q < |ms| && ms[q] == s[j];
        assert p == q && s[i] == s[j];
        TwiceInMultiset(s, i, j);
        OnceInMultiset(ms, p);
      }
    }
  }

  lemma TwiceInMultiset(s: seq<Mount>, i: nat, j: nat)
    requires i < j < |s| && s[i] == s[j]
    ensures multiset(s)[s[i]] >= 2
  {
    assert s == s[..i] + [s[i]] + s[i + 1..j] + [s[j]] + s[j + 1..];
  }

  lemma OnceInMultiset(s: seq<Mount>, p: nat)
    requires p < |s| && forall i, j :: 0 <= i < j < |s| ==> s[i].path != s[j].path
    ensures multiset(s)[s[p]] == 1
  {
    assert s == s[..p] + [s[p]] + s[p + 1..];
    assert s[p] !in s[..p] && s[p] !in s[p + 1..];
  }

  /** A new mount takes over exactly the paths at or under it that no longer mount claims. */
  lemma AddMountExactly(ms: seq<Mount>, m: Mount, path: string, cs: seq<string>)
    requires Sorted(ms) && Canonical(ms + [m]) && PathWith(path, cs)
    ensures Pick(AddMount(ms, m), path) ==
              if Comps(m.path) <= cs && (Pick(ms, path).None? || |Comps(Pick(ms, path).value.path)| < |Comps(m.path)|)
              then Some(m) else Pick(ms, path)
  {
    assert Canonical(ms) by {
      assert forall i :: 0 <= i < |ms| ==> (ms + [m])[i] == ms[i];
      assert forall x :: x in ms ==> x in ms + [m];
    }
    AddMountInserts(ms, m);
    SortCanonical(ms + [m]);
    var s := AddMount(ms, m);
    PickIsLongest(ms, path, cs);
    PickIsLongest(s, path, cs);
    match Pick(ms, path)
    case None =>
      if Comps(m.path) <= cs {
        forall x | x in ms ensures !(Comps(x.path) <= cs) {
          NoPickNoPrefix(ms, path, cs, x);
        }
        assert Longest(s, cs, m);
      } else {
        assert forall x :: Longest(s, cs, x) ==> Longest(ms, cs, x);
      }
    case Some(best) =>
      if Comps(m.path) <= cs && |Comps(best.path)| < |Comps(m.path)| {
        assert Longest(s, cs, m);
      } else {
        assert Longest(s, cs, best);
      }
  }

  lemma NoPickNoPrefix(ms: seq<Mount>, path: string, cs: seq<string>, x: Mount)
    requires Canonical(ms) && PathWith(path, cs) && Pick(ms, path).None? && x in ms
    ensures !(Comps(x.path) <= cs)
  {
    MatchIsPrefix(path, cs, Comps(x.path));
    if !NoMatch(ms, path) {
      var k := FirstMatch(ms, path);
      PickFirst(ms, path, None, k);
    } else {
      var i :| 0 <= i < |ms| && ms[i] == x;
    }
  }
}
