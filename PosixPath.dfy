/**
 * The POSIX flavour of Node's `path` module, as far as the rewrite engine uses it:
 * `resolve`, `relative`, `dirname`, `basename`, `extname` and `join`.
 *
 * A path is a string. `Split` is `s.split('/')`, `Fold` is the segment normalisation
 * that `resolve`, `join` and `normalize` share for absolute paths (drop empty and "."
 * segments, let ".." remove the previous segment and never climb above the root).
 * A path is canonical when it is "/" followed by proper names joined with '/', which
 * is what `resolve` returns.
 */
module PosixPath {

  /** `s.split('/')`: the pieces between separators, empty pieces included. */
  function Split(s: string): (r: seq<string>)
    ensures |r| >= 1
  {
    if s == [] then [[]]
    else if s[0] == '/' then [[]] + Split(s[1..])
    else
      var rest := Split(s[1..]);
      [[s[0]] + rest[0]] + rest[1..]
  }

  /** `xs.join('/')`. */
  function Join(xs: seq<string>): string
  {
    if xs == [] then []
    else if |xs| == 1 then xs[0]
    else xs[0] + "/" + Join(xs[1..])
  }

  /** A segment that survives normalisation unchanged. */
  predicate IsName(x: string)
  {
    x != "" && x != "." && x != ".." && '/' !in x
  }

  predicate AllNames(xs: seq<string>)
  {
    forall i :: 0 <= i < |xs| ==> IsName(xs[i])
  }

  /** One step of normalising an absolute path: `acc` holds the segments kept so far. */
  function Step(acc: seq<string>, x: string): seq<string>
  {
    if x == "" || x == "." then acc
    else if x == ".." then (if acc == [] then acc else acc[..|acc| - 1])
    else acc + [x]
  }

  /** Normalise the segments `xs`, left to right, starting from the kept segments `acc`. */
  function Fold(acc: seq<string>, xs: seq<string>): seq<string>
    decreases |xs|
  {
    if xs == [] then acc else Step(Fold(acc, xs[..|xs| - 1]), xs[|xs| - 1])
  }

  predicate IsAbsolute(p: string)
  {
    |p| > 0 && p[0] == '/'
  }

  /** The absolute path made of the names `ns`. */
  function Canon(ns: seq<string>): (p: string)
    ensures IsAbsolute(p)
  {
    "/" + Join(ns)
  }

  /** The normalised segments of the absolute path `p`. */
  function Segments(p: string): (ns: seq<string>)
    ensures AllNames(ns)
  {
    SplitPieces(p);
    FoldKeepsNames([], Split(p));
    Fold([], Split(p))
  }

  /** What `resolve` returns: "/" and the names joined, with no "." or "..". */
  predicate IsCanonical(p: string)
  {
    p == Canon(Segments(p))
  }

  /** `path.resolve(dir, request)` for an absolute `dir`. */
  function Resolve(dir: string, request: string): (r: string)
    requires IsAbsolute(dir)
  {
    if IsAbsolute(request) then Canon(Segments(request))
    else Canon(Segments(dir + "/" + request))
  }

  /** Length of the longest common prefix of `a` and `b`. */
  function CommonPrefix(a: seq<string>, b: seq<string>): (k: nat)
    ensures k <= |a| && k <= |b| && a[..k] == b[..k]
  {
    if a == [] || b == [] || a[0] != b[0] then 0
    else
      var k' := CommonPrefix(a[1..], b[1..]);
      assert a[..k' + 1] == [a[0]] + a[1..][..k'];
      assert b[..k' + 1] == [b[0]] + b[1..][..k'];
      1 + k'
  }

  function Dots(n: nat): (r: seq<string>)
    ensures |r| == n && forall i :: 0 <= i < n ==> r[i] == ".."
  {
    seq(n, _ => "..")
  }

  /** The segments of a relative path from the names `fs` to the names `ts`: climb out
      of what `fs` does not share with `ts`, then descend into the rest of `ts`. */
  function RelativeSteps(fs: seq<string>, ts: seq<string>): (r: seq<string>)
  {
    var k := CommonPrefix(fs, ts);
    Dots(|fs| - k) + ts[k..]
  }

  /** `path.relative(from, to)` for absolute `from` and `to`. */
  function Relative(from: string, to: string): (r: string)
    requires IsAbsolute(from) && IsAbsolute(to)
  {
    Join(RelativeSteps(Segments(from), Segments(to)))
  }

  /** `p` without trailing separators, but never shorter than `keep` characters. */
  function TrimSeps(p: string, keep: nat): (r: string)
    ensures |r| <= |p| && r == p[..|r|]
    ensures |r| > keep ==> r[|r| - 1] != '/'
    ensures |p| >= keep ==> |r| >= keep
    ensures forall j :: |r| <= j < |p| ==> p[j] == '/'
  {
    if |p| > keep && p[|p| - 1] == '/' then TrimSeps(p[..|p| - 1], keep) else p
  }

  /** The index of the last '/' of `p` at an index of at least 1, or 0 if there is none. */
  function LastSep(p: string): (i: nat)
    ensures i == 0 || (i < |p| && p[i] == '/')
    ensures forall j :: i < j < |p| ==> p[j] != '/'
  {
    if |p| <= 1 then 0
    else if p[|p| - 1] == '/' then |p| - 1
    else LastSep(p[..|p| - 1])
  }

  /** `path.dirname(p)`: everything before the last separator that is not trailing. */
  function Dirname(p: string): (r: string)
    ensures IsAbsolute(p) ==> IsAbsolute(r)
  {
    if p == [] then "."
    else
      var q := TrimSeps(p, 1);
      var e := LastSep(q);
      if e == 0 then (if p[0] == '/' then "/" else ".")
      else if p[0] == '/' && e == 1 then "//"
      else q[..e]
  }

  /** The characters of `q` after its last '/'. */
  function AfterLastSep(q: string): (b: string)
    ensures |b| <= |q| && b == q[|q| - |b|..]
    ensures '/' !in b
  {
    if q == [] || q[|q| - 1] == '/' then []
    else AfterLastSep(q[..|q| - 1]) + [q[|q| - 1]]
  }

  /** `path.basename(p)`: the last component, trailing separators ignored. */
  function BaseOf(p: string): (b: string)
    ensures '/' !in b
  {
    AfterLastSep(TrimSeps(p, 0))
  }

  /** `path.basename(p, ext)`: the last component with the suffix `ext` removed when it
      is a proper suffix of it. A component that is itself a proper suffix of `ext`
      comes back with the trailing separators of `p`, and `p == ext` gives "". */
  function Basename(p: string, ext: string): (r: string)
  {
    if ext != [] && |ext| <= |p| then
      if ext == p then []
      else
        var q := TrimSeps(p, 0);
        var b := AfterLastSep(q);
        if |ext| < |b| && b[|b| - |ext|..] == ext then b[..|b| - |ext|]
        else if |b| < |ext| && ext[|ext| - |b|..] == b then p[|q| - |b|..]
        else b
    else BaseOf(p)
  }

  /** The index of the last '.' in `s`, or -1. */
  function LastDot(s: string): (i: int)
    ensures -1 <= i < |s|
    ensures i >= 0 ==> s[i] == '.'
    ensures forall j :: i < j < |s| ==> s[j] != '.'
  {
    if s == [] then -1
    else if s[|s| - 1] == '.' then |s| - 1
    else LastDot(s[..|s| - 1])
  }

  /** `path.extname(p)`: from the last '.' of the last component to its end; "" when
      that component has no '.', starts with its only '.', or is "..". */
  function Extname(p: string): string
  {
    var b := BaseOf(p);
    var i := LastDot(b);
    if i <= 0 || b == ".." then [] else b[i..]
  }

  /** `path.join(a, b)` for an absolute `a`: the two joined with '/', normalised,
      keeping a trailing separator. */
  function JoinPath(a: string, b: string): (r: string)
    requires IsAbsolute(a)
  {
    var joined := if b == [] then a else a + "/" + b;
    var ns := Segments(joined);
    if ns != [] && joined[|joined| - 1] == '/' then Canon(ns) + "/" else Canon(ns)
  }

  // ---------------------------------------------------------------------------
  // Lemmas about splitting and joining

  /** No piece of a split holds a separator. */
  lemma {:induction false} SplitPieces(s: string)
    ensures forall i :: 0 <= i < |Split(s)| ==> '/' !in Split(s)[i]
    decreases |s|
  {
    if s != [] {
      SplitPieces(s[1..]);
      if s[0] != '/' {
        var rest := Split(s[1..]);
        forall i | 0 <= i < |Split(s)| ensures '/' !in Split(s)[i] {
          if i > 0 { assert Split(s)[i] == rest[i]; }
        }
      }
    }
  }


  lemma {:induction false} SplitConcat(a: string, b: string)
    ensures Split(a + "/" + b) == Split(a) + Split(b)
    decreases |a|
  {
    if a == [] {
      assert a + "/" + b == ['/'] + b;
      SplitUnfold('/', b);
    } else {
      var c, t := a[0], a[1..];
      assert a == [c] + t;
      assert a + "/" + b == [c] + (t + "/" + b);
      SplitConcat(t, b);
      SplitUnfold(c, t + "/" + b);
      SplitUnfold(c, t);
      if c != '/' {
        ConsHead([c], Split(t), Split(b));
      }
    }
  }

  /** One step of `Split` on a string that starts with `c`. */
  lemma SplitUnfold(c: char, t: string)
    ensures c == '/' ==> Split([c] + t) == [[]] + Split(t)
    ensures c != '/' ==> Split([c] + t) == [[c] + Split(t)[0]] + Split(t)[1..]
  {
    assert ([c] + t)[0] == c && ([c] + t)[1..] == t;
  }

  lemma ConsHead(x: string, u: seq<string>, w: seq<string>)
    requires |u| >= 1
    ensures [x + (u + w)[0]] + (u + w)[1..] == ([x + u[0]] + u[1..]) + w
  {
    assert (u + w)[0] == u[0];
    assert (u + w)[1..] == u[1..] + w;
  }

  lemma {:induction false} SplitNoSep(x: string)
    requires '/' !in x
    ensures Split(x) == [x]
    decreases |x|
  {
    if x != [] {
      SplitNoSep(x[1..]);
      assert [x[0]] + x[1..] == x;
    }
  }

  lemma {:induction false} SplitJoin(xs: seq<string>)
    requires |xs| >= 1
    requires forall i :: 0 <= i < |xs| ==> '/' !in xs[i]
    ensures Split(Join(xs)) == xs
    decreases |xs|
  {
    if |xs| == 1 {
      SplitNoSep(xs[0]);
    } else {
      SplitJoin(xs[1..]);
      SplitConcat(xs[0], Join(xs[1..]));
      SplitNoSep(xs[0]);
      assert [xs[0]] + xs[1..] == xs;
    }
  }

  lemma {:induction false} JoinSnoc(xs: seq<string>, x: string)
    requires |xs| >= 1
    ensures Join(xs + [x]) == Join(xs) + "/" + x
    decreases |xs|
  {
    if |xs| == 1 {
      assert xs + [x] == [xs[0], x];
    } else {
      JoinSnoc(xs[1..], x);
      assert (xs + [x])[1..] == xs[1..] + [x];
    }
  }

  // ---------------------------------------------------------------------------
  // Lemmas about normalisation

  /** Normalising segments without separators keeps only proper names. */
  lemma {:induction false} FoldKeepsNames(acc: seq<string>, xs: seq<string>)
    requires AllNames(acc) && forall i :: 0 <= i < |xs| ==> '/' !in xs[i]
    ensures AllNames(Fold(acc, xs))
    decreases |xs|
  {
    if xs != [] {
      FoldKeepsNames(acc, xs[..|xs| - 1]);
      var x := xs[|xs| - 1];
      var a := Fold(acc, xs[..|xs| - 1]);
      if x != "" && x != "." && x != ".." {
        assert Fold(acc, xs) == a + [x];
      }
    }
  }

  lemma {:induction false} FoldConcat(acc: seq<string>, a: seq<string>, b: seq<string>)
    ensures Fold(acc, a + b) == Fold(Fold(acc, a), b)
    decreases |b|
  {
    if b == [] {
      assert a + b == a;
    } else {
      FoldConcat(acc, a, b[..|b| - 1]);
      assert (a + b)[..|a + b| - 1] == a + b[..|b| - 1];
    }
  }

  lemma {:induction false} FoldNames(acc: seq<string>, xs: seq<string>)
    requires AllNames(xs)
    ensures Fold(acc, xs) == acc + xs
    decreases |xs|
  {
    if xs != [] {
      FoldNames(acc, xs[..|xs| - 1]);
      assert acc + xs[..|xs| - 1] + [xs[|xs| - 1]] == acc + xs;
    }
  }

  lemma {:induction false} FoldDots(acc: seq<string>, n: nat)
    requires n <= |acc|
    ensures Fold(acc, Dots(n)) == acc[..|acc| - n]
    decreases n
  {
    if n > 0 {
      assert Dots(n)[..n - 1] == Dots(n - 1);
      FoldDots(acc, n - 1);
    }
  }

  lemma {:induction false} SegmentsCanon(ns: seq<string>)
    requires AllNames(ns)
    ensures Segments(Canon(ns)) == ns
  {
    assert Canon(ns) == [] + "/" + Join(ns);
    SplitConcat([], Join(ns));
    if ns == [] {
      assert Split(Canon(ns)) == [[], []];
      assert Fold([], [[], []]) == Step(Fold([], [[]]), []);
      assert Fold([], [[]]) == Step(Fold([], []), []);
    } else {
      SplitJoin(ns);
      FoldConcat([], [[]], ns);
      FoldNames([], ns);
    }
  }

  // ---------------------------------------------------------------------------
  // The round trip between relative and resolve

  /** Resolving against `dir` normalises the request's segments after `dir`'s. */
  lemma {:induction false} SegmentsAfter(dir: string, request: string)
    ensures Segments(dir + "/" + request) == Fold(Segments(dir), Split(request))
  {
    SplitConcat(dir, request);
    FoldConcat([], Split(dir), Split(request));
  }

  lemma {:induction false} StepsNoSep(fs: seq<string>, ts: seq<string>)
    requires AllNames(ts)
    ensures forall i :: 0 <= i < |RelativeSteps(fs, ts)| ==> '/' !in RelativeSteps(fs, ts)[i]
  {
    var k := CommonPrefix(fs, ts);
    var steps := RelativeSteps(fs, ts);
    forall i | 0 <= i < |steps| ensures '/' !in steps[i] {
      if i >= |fs| - k { assert steps[i] == ts[k + (i - (|fs| - k))]; }
    }
  }

  /** Normalising the relative steps after `fs` gives `ts`. */
  lemma {:induction false} FoldSteps(fs: seq<string>, ts: seq<string>)
    requires AllNames(ts)
    ensures Fold(fs, RelativeSteps(fs, ts)) == ts
  {
    var k := CommonPrefix(fs, ts);
    FoldConcat(fs, Dots(|fs| - k), ts[k..]);
    FoldDots(fs, |fs| - k);
    NamesSuffix(ts, k);
    FoldNames(fs[..k], ts[k..]);
    SharedPrefix(fs, ts, k);
  }

  lemma NamesSuffix(ts: seq<string>, k: nat)
    requires AllNames(ts) && k <= |ts|
    ensures AllNames(ts[k..])
  {
    forall i | 0 <= i < |ts[k..]| ensures IsName(ts[k..][i]) { assert ts[k..][i] == ts[k + i]; }
  }

  lemma SharedPrefix(fs: seq<string>, ts: seq<string>, k: nat)
    requires k <= |fs| && k <= |ts| && fs[..k] == ts[..k]
    ensures fs[..k] + ts[k..] == ts
  {
    assert ts[..k] + ts[k..] == ts;
  }

  /** No steps at all: the two are the same names. */
  lemma {:induction false} NoSteps(fs: seq<string>, ts: seq<string>)
    requires RelativeSteps(fs, ts) == []
    ensures fs == ts
  {
    var k := CommonPrefix(fs, ts);
    assert |Dots(|fs| - k) + ts[k..]| == 0;
    assert fs == fs[..k] && ts == ts[..k];
  }

  /** A path joined from segments without separators, the first non-empty, is relative. */
  lemma {:induction false} JoinNotAbsolute(steps: seq<string>)
    requires |steps| >= 1 && steps[0] != [] && '/' !in steps[0]
    ensures !IsAbsolute(Join(steps))
  {
    var rel := Join(steps);
    assert rel[..|steps[0]|] == steps[0];
    assert rel[0] == steps[0][0];
  }

  /** `resolve(from, relative(from, to))` names `to`: the relative path climbs to the
      common ancestor and descends into `to`'s remaining names. */
  lemma {:induction false} ResolveRelative(from: string, to: string)
    requires IsAbsolute(from) && IsAbsolute(to)
    ensures Resolve(from, Relative(from, to)) == Canon(Segments(to))
  {
    var fs, ts := Segments(from), Segments(to);
    var steps := RelativeSteps(fs, ts);
    var rel := Join(steps);
    SegmentsAfter(from, rel);
    if steps == [] {
      NoSteps(fs, ts);
      assert Split(rel) == [[]];
      assert Fold(fs, [[]]) == Step(Fold(fs, []), []);
    } else {
      StepsNoSep(fs, ts);
      SplitJoin(steps);
      FoldSteps(fs, ts);
      assert steps[0] == ".." || steps[0] == ts[CommonPrefix(fs, ts)];
      JoinNotAbsolute(steps);
    }
  }

  /** The same round trip, for a canonical destination such as a `resolve` result. */
  lemma ResolveRelativeCanonical(from: string, to: string)
    requires IsAbsolute(from) && IsCanonical(to)
    ensures Resolve(from, Relative(from, to)) == to
  {
    ResolveRelative(from, to);
  }

  /** A leading "./" does not change what a relative request resolves to. */
  lemma {:induction false} ResolveDotSlash(dir: string, request: string)
    requires IsAbsolute(dir) && !IsAbsolute(request)
    ensures Resolve(dir, "./" + request) == Resolve(dir, request)
  {
    var r := "./" + request;
    assert !IsAbsolute(r) by { assert r[0] == '.'; }
    assert r == "." + "/" + request;
    SplitConcat(".", request);
    SplitNoSep(".");
    SegmentsAfter(dir, r);
    SegmentsAfter(dir, request);
    var ds := Segments(dir);
    FoldConcat(ds, ["."], Split(request));
    assert Fold(ds, ["."]) == Step(Fold(ds, []), ".");
  }

  // ---------------------------------------------------------------------------
  // dirname, basename and join on canonical paths

  lemma {:induction false} LastSepAfter(x: string, n: string)
    requires |x| >= 1 && '/' !in n
    ensures LastSep(x + "/" + n) == |x|
    decreases |n|
  {
    if n == [] {
      assert (x + "/" + n)[|x|] == '/';
    } else {
      LastSepAfter(x, n[..|n| - 1]);
      assert (x + "/" + n)[..|x + "/" + n| - 1] == x + "/" + n[..|n| - 1];
      assert (x + "/" + n)[|x + "/" + n| - 1] == n[|n| - 1];
    }
  }

  lemma {:induction false} AfterLastSepOf(x: string, n: string)
    requires '/' !in n
    ensures AfterLastSep(x + "/" + n) == n
    decreases |n|
  {
    if n == [] {
      assert (x + "/" + n)[|x + "/" + n| - 1] == '/';
    } else {
      AfterLastSepOf(x, n[..|n| - 1]);
      assert (x + "/" + n)[..|x + "/" + n| - 1] == x + "/" + n[..|n| - 1];
      assert n[..|n| - 1] + [n[|n| - 1]] == n;
    }
  }

  lemma {:induction false} CanonSnoc(ns: seq<string>, n: string)
    ensures Canon(ns + [n]) == (if ns == [] then [] else Canon(ns)) + "/" + n
  {
    if ns == [] {
      assert ns + [n] == [n];
    } else {
      JoinSnoc(ns, n);
    }
  }

  /** Appending a name to a canonical path: its `dirname` is the path. */
  lemma {:induction false} DirnameChild(ns: seq<string>, n: string)
    requires AllNames(ns) && IsName(n)
    ensures Dirname(Canon(ns + [n])) == Canon(ns)
  {
    var x := if ns == [] then [] else Canon(ns);
    var p := x + "/" + n;
    CanonSnoc(ns, n);
    assert p[|p| - 1] == n[|n| - 1];
    assert TrimSeps(p, 1) == p;
    if ns == [] {
      assert p == "/" + n;
      assert forall j :: 0 < j < |p| ==> p[j] == n[j - 1];
      assert LastSep(p) == 0;
    } else {
      LastSepAfter(x, n);
      assert |x| >= 2 by { assert |Join(ns)| >= |ns[0]| >= 1; }
      assert p[..|x|] == x;
    }
  }

  /** Appending a name to a canonical path: its `basename` is the name. */
  lemma {:induction false} BaseOfChild(ns: seq<string>, n: string)
    requires IsName(n)
    ensures BaseOf(Canon(ns + [n])) == n
  {
    var x := if ns == [] then [] else Canon(ns);
    var p := x + "/" + n;
    CanonSnoc(ns, n);
    assert p[|p| - 1] == n[|n| - 1];
    assert TrimSeps(p, 0) == p;
    AfterLastSepOf(x, n);
  }

  /** `path.join(dir, name)` for a canonical directory and a proper name. */
  lemma {:induction false} JoinPathName(ns: seq<string>, n: string)
    requires AllNames(ns) && IsName(n)
    ensures JoinPath(Canon(ns), n) == Canon(ns + [n])
  {
    var joined := Canon(ns) + "/" + n;
    SegmentsAfter(Canon(ns), n);
    SegmentsCanon(ns);
    SplitNoSep(n);
    FoldOne(ns, n);
    EndsInName(Canon(ns), n);
  }

  lemma FoldOne(acc: seq<string>, n: string)
    requires IsName(n)
    ensures Fold(acc, [n]) == acc + [n]
  {
    assert Fold(acc, [n]) == Step(Fold(acc, []), n);
  }

  /** A path that ends in '/' and a name does not end in '/'. */
  lemma EndsInName(x: string, n: string)
    requires IsName(n)
    ensures var p := x + "/" + n; p[|p| - 1] != '/'
  {
    var p := x + "/" + n;
    assert p[|p| - 1] == n[|n| - 1];
    assert n[|n| - 1] in n;
  }

  // ---------------------------------------------------------------------------
  // Facts used by the literal computations

  /** `resolve` always returns a canonical path. */
  lemma ResolveIsCanonical(dir: string, request: string)
    requires IsAbsolute(dir)
    ensures IsCanonical(Resolve(dir, request))
  {
    var ns := if IsAbsolute(request) then Segments(request) else Segments(dir + "/" + request);
    SegmentsCanon(ns);
  }

  lemma {:induction false} AfterLastSepNoSep(n: string)
    requires '/' !in n
    ensures AfterLastSep(n) == n
    decreases |n|
  {
    if n != [] {
      var m, c := n[..|n| - 1], n[|n| - 1];
      assert n == m + [c];
      assert c in n;
      AfterLastSepNoSep(m);
    }
  }

  lemma TrimNoSep(b: string)
    requires '/' !in b
    ensures TrimSeps(b, 0) == b
  {
    if b != [] {
      assert b[|b| - 1] in b;
    }
  }

  /** A component is its own basename. */
  lemma BaseOfBase(p: string)
    ensures BaseOf(BaseOf(p)) == BaseOf(p)
  {
    var b := BaseOf(p);
    TrimNoSep(b);
    AfterLastSepNoSep(b);
  }

  /** `extname` depends on the basename alone. */
  lemma ExtnameOfBase(p: string)
    ensures Extname(p) == Extname(BaseOf(p))
  {
    BaseOfBase(p);
  }

  /** The extension is a suffix of the basename that starts with '.', shorter than it. */
  lemma ExtnameSuffix(p: string)
    ensures |Extname(p)| <= |BaseOf(p)|
    ensures Extname(p) == BaseOf(p)[|BaseOf(p)| - |Extname(p)|..]
    ensures Extname(p) != [] ==> Extname(p)[0] == '.' && |Extname(p)| < |BaseOf(p)|
  {
    var b := BaseOf(p);
    var i := LastDot(b);
    if i > 0 && b != ".." {
      assert Extname(p) == b[i..];
    }
  }

  /** A name is its own basename. */
  lemma {:induction false} BaseOfName(n: string)
    requires IsName(n)
    ensures BaseOf(n) == n
  {
    TrimNoSep(n);
    AfterLastSepNoSep(n);
  }

  /** The basename of a path that ends in '/' and a name is the name. */
  lemma {:induction false} BaseOfAfterSep(x: string, n: string)
    requires IsName(n)
    ensures BaseOf(x + "/" + n) == n
  {
    var s := x + "/" + n;
    assert s[|s| - 1] == n[|n| - 1];
    assert n[|n| - 1] in n;
    assert TrimSeps(s, 0) == s;
    AfterLastSepOf(x, n);
  }

  /** The basename of names joined with '/' is the last name. */
  lemma {:induction false} BaseOfJoin(xs: seq<string>)
    requires |xs| >= 1 && IsName(xs[|xs| - 1])
    ensures BaseOf(Join(xs)) == xs[|xs| - 1]
  {
    var name, init := xs[|xs| - 1], xs[..|xs| - 1];
    assert xs == init + [name];
    if init == [] {
      assert Join(xs) == name;
      BaseOfName(name);
    } else {
      JoinSnoc(init, name);
      BaseOfAfterSep(Join(init), name);
    }
  }

  /** The same with a leading "./". */
  lemma {:induction false} BaseOfDotJoin(xs: seq<string>)
    requires |xs| >= 1 && IsName(xs[|xs| - 1])
    ensures BaseOf("./" + Join(xs)) == xs[|xs| - 1]
  {
    var name, init := xs[|xs| - 1], xs[..|xs| - 1];
    assert xs == init + [name];
    if init == [] {
      assert Join(xs) == name;
      assert "./" + Join(xs) == "." + "/" + name;
      BaseOfAfterSep(".", name);
    } else {
      JoinSnoc(init, name);
      assert "./" + Join(xs) == ("./" + Join(init)) + "/" + name;
      BaseOfAfterSep("./" + Join(init), name);
    }
  }

  lemma {:induction false} CommonPrefixWhole(a: seq<string>, b: seq<string>)
    ensures CommonPrefix(a, b) == |b| ==> b <= a
  {
    var k := CommonPrefix(a, b);
    if k == |b| {
      assert b == b[..k] == a[..k];
    }
  }

  /** The relative steps to names that do not lie on the way up end in the last name. */
  lemma {:induction false} StepsEndInName(fs: seq<string>, ts: seq<string>)
    requires AllNames(ts) && !(ts <= fs)
    ensures |ts| > 0 && |RelativeSteps(fs, ts)| > 0
    ensures RelativeSteps(fs, ts)[|RelativeSteps(fs, ts)| - 1] == ts[|ts| - 1]
    ensures IsName(ts[|ts| - 1])
  {
    CommonPrefixWhole(fs, ts);
  }

  /** The relative steps to names that do not lie on the way up, joined with '/' and
      with or without a leading "./", have the last name as their basename. */
  lemma {:induction false} StepsBaseOf(fs: seq<string>, ts: seq<string>)
    requires AllNames(ts) && !(ts <= fs)
    ensures |ts| > 0
    ensures BaseOf(Join(RelativeSteps(fs, ts))) == ts[|ts| - 1]
    ensures BaseOf("./" + Join(RelativeSteps(fs, ts))) == ts[|ts| - 1]
  {
    StepsEndInName(fs, ts);
    BaseOfJoin(RelativeSteps(fs, ts));
    BaseOfDotJoin(RelativeSteps(fs, ts));
  }

  /** A relative path that descends into at least one name ends in the destination's
      last name. */
  lemma {:induction false} RelativeEndsInName(from: string, to: string)
    requires IsAbsolute(from) && IsAbsolute(to)
    requires !(Segments(to) <= Segments(from))
    ensures |Segments(to)| > 0 && BaseOf(Relative(from, to)) == Segments(to)[|Segments(to)| - 1]
  {
    StepsBaseOf(Segments(from), Segments(to));
  }

  /** The same with a leading "./". */
  lemma {:induction false} DotRelativeEndsInName(from: string, to: string)
    requires IsAbsolute(from) && IsAbsolute(to)
    requires !(Segments(to) <= Segments(from))
    ensures |Segments(to)| > 0 && BaseOf("./" + Relative(from, to)) == Segments(to)[|Segments(to)| - 1]
  {
    StepsBaseOf(Segments(from), Segments(to));
  }

  /** `path.basename(p, ext)` for a proper suffix `ext` of the last component removes it. */
  lemma BasenameProperSuffix(p: string, ext: string)
    requires ext != [] && |ext| < |BaseOf(p)|
    requires BaseOf(p)[|BaseOf(p)| - |ext|..] == ext
    ensures Basename(p, ext) == BaseOf(p)[..|BaseOf(p)| - |ext|]
  {
    var q := TrimSeps(p, 0);
    var b := AfterLastSep(q);
    assert b == BaseOf(p);
    assert |b| <= |q| <= |p|;
  }

  /** `path.basename(p, path.extname(p))` is the last component without its extension. */
  lemma BasenameWithoutExt(p: string)
    ensures Basename(p, Extname(p)) + Extname(p) == BaseOf(p)
    ensures '/' !in Basename(p, Extname(p))
  {
    var ext, b := Extname(p), BaseOf(p);
    ExtnameSuffix(p);
    if ext != [] {
      var k := |b| - |ext|;
      BasenameProperSuffix(p, ext);
      SliceParts(b, k);
    }
  }

  lemma SliceParts(b: string, k: nat)
    requires k <= |b|
    ensures b[..k] + b[k..] == b
    ensures forall c :: c in b[..k] ==> c in b
  {
  }
}
