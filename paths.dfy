/** Unix path algebra as Go's path/filepath package implements it: Clean, Join
    and Dir, plus strings.HasPrefix. A cleaned path is represented by Path:
    whether it is rooted at "/" and the list of its elements. */
module Paths {

  /** The cleaned form of a path: rooted at "/" or relative, and its elements. */
  datatype Path = Path(rooted: bool, segs: seq<string>)

  predicate NoSep(s: string) {
    forall i :: 0 <= i < |s| ==> s[i] != '/'
  }

  /** An element that a directory listing can return: not empty, not "." or "..", no separator. */
  predicate IsName(s: string) {
    s != "" && s != "." && s != ".." && NoSep(s)
  }

  /** The shape filepath.Clean produces: no empty or "." elements, ".." only as a
      leading run of a relative path. */
  predicate WellFormed(p: Path) {
    && (forall i :: 0 <= i < |p.segs| ==> p.segs[i] != "" && p.segs[i] != "." && NoSep(p.segs[i]))
    && (forall i, j :: 0 <= i < j < |p.segs| && p.segs[j] == ".." ==> p.segs[i] == "..")
    && (p.rooted ==> forall i :: 0 <= i < |p.segs| ==> p.segs[i] != "..")
  }

  /** strings.HasPrefix */
  predicate HasPrefix(s: string, prefix: string) {
    |prefix| <= |s| && s[..|prefix|] == prefix
  }

  function Child(p: Path, name: string): Path {
    Path(p.rooted, p.segs + [name])
  }

  function Parent(p: Path): Path {
    if p.segs == [] then p else Path(p.rooted, p.segs[..|p.segs| - 1])
  }

  /** q is p itself or one of p's ancestors. */
  predicate Under(p: Path, q: Path) {
    p.rooted == q.rooted && |q.segs| <= |p.segs| && p.segs[..|q.segs|] == q.segs
  }

  /** p lies below q and is not q itself. */
  predicate StrictlyInside(p: Path, q: Path) {
    Under(p, q) && |q.segs| < |p.segs|
  }

  // ---------------------------------------------------------------------------
  // Splitting and joining on "/"

  /** Index of the first separator, or -1. */
  function IndexOfSep(s: string): (k: int)
    ensures -1 <= k < |s|
    ensures k == -1 ==> NoSep(s)
    ensures 0 <= k ==> s[k] == '/' && NoSep(s[..k])
  {
    if s == [] then -1
    else if s[0] == '/' then 0
    else
      var k := IndexOfSep(s[1..]);
      if k == -1 then -1
      else
        assert s[..k + 1] == [s[0]] + s[1..][..k];
        k + 1
  }

  /** strings.Split(s, "/") */
  function Split(s: string): (r: seq<string>)
    ensures |r| >= 1
    ensures forall i :: 0 <= i < |r| ==> NoSep(r[i])
    decreases |s|
  {
    var k := IndexOfSep(s);
    if k == -1 then [s] else [s[..k]] + Split(s[k + 1..])
  }

  /** strings.Join(parts, "/") */
  function JoinSep(parts: seq<string>): string {
    if parts == [] then ""
    else if |parts| == 1 then parts[0]
    else parts[0] + "/" + JoinSep(parts[1..])
  }

  // ---------------------------------------------------------------------------
  // filepath.Clean

  /** One element of Clean's left-to-right scan. */
  function Step(rooted: bool, acc: seq<string>, e: string): seq<string> {
    if e == "" || e == "." then acc
    else if e == ".." then
      if |acc| > 0 && acc[|acc| - 1] != ".." then acc[..|acc| - 1]
      else if rooted then acc
      else acc + [".."]
    else acc + [e]
  }

  function Normalize(rooted: bool, acc: seq<string>, elems: seq<string>): seq<string>
    decreases |elems|
  {
    if elems == [] then acc else Normalize(rooted, Step(rooted, acc, elems[0]), elems[1..])
  }

  /** The path filepath.Clean(s) denotes. */
  function Clean(s: string): (p: Path)
    ensures WellFormed(p)
  {
    var rooted := |s| > 0 && s[0] == '/';
    NormalizeWellFormed(rooted, [], Split(s));
    Path(rooted, Normalize(rooted, [], Split(s)))
  }

  /** The string filepath.Clean returns for a cleaned path. */
  function Render(p: Path): string {
    if p.rooted then "/" + JoinSep(p.segs)
    else if p.segs == [] then "."
    else JoinSep(p.segs)
  }

  /** filepath.Clean */
  function CleanString(s: string): string {
    Render(Clean(s))
  }

  /** filepath.Join: skip leading empty elements, join the rest with "/", clean. */
  function Join(elems: seq<string>): string {
    if elems == [] then ""
    else if elems[0] == "" then Join(elems[1..])
    else CleanString(JoinSep(elems))
  }

  /** Index of the last separator, or -1. */
  function LastSep(s: string): (k: int)
    ensures -1 <= k < |s|
    ensures k >= 0 ==> s[k] == '/'
    ensures forall i :: k < i < |s| ==> s[i] != '/'
  {
    if s == [] then -1 else if s[|s| - 1] == '/' then |s| - 1 else LastSep(s[..|s| - 1])
  }

  /** filepath.Dir: clean everything up to and including the last separator. */
  function Dir(s: string): string {
    CleanString(s[..LastSep(s) + 1])
  }

  // ---------------------------------------------------------------------------
  // Lemmas about splitting and joining

  lemma SplitNoSep(s: string)
    requires NoSep(s)
    ensures Split(s) == [s]
  {
  }

  /** The first separator of s is at k when s[k] is one and nothing before it is. */
  lemma {:induction false} IndexOfSepAt(s: string, k: int)
    requires 0 <= k < |s| && s[k] == '/'
    requires forall i :: 0 <= i < k ==> s[i] != '/'
    ensures IndexOfSep(s) == k
    decreases k
  {
    if k > 0 {
      assert forall i :: 0 <= i < k - 1 ==> s[1..][i] == s[i + 1];
      IndexOfSepAt(s[1..], k - 1);
    }
  }

  /** A string that starts with a separator-free part and a separator splits
      into that part followed by the split of the rest. */
  lemma SplitAfterFirst(a: string, rest: string)
    requires NoSep(a)
    ensures Split(a + "/" + rest) == [a] + Split(rest)
  {
    var s := a + "/" + rest;
    assert s[|a|] == '/';
    assert forall i :: 0 <= i < |a| ==> s[i] == a[i];
    IndexOfSepAt(s, |a|);
    assert s[..|a|] == a;
    assert s[|a| + 1..] == rest;
  }

  lemma {:induction false} JoinSepConcat(a: seq<string>, b: seq<string>)
    requires |a| >= 1 && |b| >= 1
    ensures JoinSep(a + b) == JoinSep(a) + "/" + JoinSep(b)
    decreases |a|
  {
    if |a| == 1 {
      assert (a + b)[1..] == b;
    } else {
      assert (a + b)[1..] == a[1..] + b;
      JoinSepConcat(a[1..], b);
    }
  }

  lemma JoinSepSnoc(a: seq<string>, x: string)
    ensures JoinSep(a + [x]) == if a == [] then x else JoinSep(a) + "/" + x
  {
    if a == [] {
      assert a + [x] == [x];
    } else {
      JoinSepConcat(a, [x]);
    }
  }

  /** The joined string starts with the first part. */
  lemma {:induction false} JoinSepHead(parts: seq<string>)
    requires |parts| >= 1
    ensures HasPrefix(JoinSep(parts), parts[0])
  {
    if |parts| > 1 {
      assert JoinSep(parts) == parts[0] + ("/" + JoinSep(parts[1..]));
    }
  }

  lemma {:induction false} SplitJoin(segs: seq<string>)
    requires |segs| >= 1
    requires forall i :: 0 <= i < |segs| ==> NoSep(segs[i])
    ensures Split(JoinSep(segs)) == segs
    decreases |segs|
  {
    if |segs| == 1 {
      SplitNoSep(segs[0]);
    } else {
      SplitAfterFirst(segs[0], JoinSep(segs[1..]));
      SplitJoin(segs[1..]);
    }
  }

  /** Joining the parts of a split gives the string back. */
  lemma {:induction false} JoinSplit(s: string)
    ensures JoinSep(Split(s)) == s
    decreases |s|
  {
    var k := IndexOfSep(s);
    if k != -1 {
      var head, tail := s[..k], s[k + 1..];
      var rest := Split(tail);
      assert JoinSep(rest) == tail by {
        JoinSplit(tail);
      }
      assert Split(s) == [head] + rest;
      assert JoinSep([head] + rest) == head + "/" + JoinSep(rest) by {
        assert ([head] + rest)[1..] == rest;
      }
      CutAtSep(s, k);
    }
  }

  /** A string with a separator at k is the part before it, the separator and the part after it. */
  lemma CutAtSep(s: string, k: int)
    requires 0 <= k < |s| && s[k] == '/'
    ensures s == s[..k] + "/" + s[k + 1..]
  {
  }

  lemma SplitConcat(a: string, b: string)
    ensures Split(a + "/" + b) == Split(a) + Split(b)
  {
    var pa, pb := Split(a), Split(b);
    assert JoinSep(pa + pb) == a + "/" + b by {
      JoinSplit(a);
      JoinSplit(b);
      JoinSepConcat(pa, pb);
    }
    assert forall i :: 0 <= i < |pa + pb| ==> NoSep((pa + pb)[i]) by {
      forall i | 0 <= i < |pa + pb|
        ensures NoSep((pa + pb)[i])
      {
        if i < |pa| {
          assert (pa + pb)[i] == pa[i];
        } else {
          assert (pa + pb)[i] == pb[i - |pa|];
        }
      }
    }
    SplitJoin(pa + pb);
  }

  // ---------------------------------------------------------------------------
  // Lemmas about Normalize

  lemma {:induction false} NormalizeConcat(r: bool, acc: seq<string>, a: seq<string>, b: seq<string>)
    ensures Normalize(r, acc, a + b) == Normalize(r, Normalize(r, acc, a), b)
    decreases |a|
  {
    if a != [] {
      assert (a + b)[0] == a[0];
      assert (a + b)[1..] == a[1..] + b;
      NormalizeConcat(r, Step(r, acc, a[0]), a[1..], b);
    } else {
      assert a + b == b;
    }
  }

  /** Normalize leaves an already clean list alone. */
  lemma {:induction false} NormalizeIdentity(r: bool, acc: seq<string>, elems: seq<string>)
    requires WellFormed(Path(r, acc + elems))
    ensures Normalize(r, acc, elems) == acc + elems
    decreases |elems|
  {
    if elems != [] {
      var all := acc + elems;
      assert all[|acc|] == elems[0];
      if elems[0] == ".." {
        assert forall i :: 0 <= i < |acc| ==> acc[i] == all[i];
      }
      assert Step(r, acc, elems[0]) == acc + [elems[0]];
      assert (acc + [elems[0]]) + elems[1..] == all;
      NormalizeIdentity(r, acc + [elems[0]], elems[1..]);
    }
  }

  lemma StepWellFormed(r: bool, acc: seq<string>, e: string)
    requires WellFormed(Path(r, acc)) && NoSep(e)
    ensures WellFormed(Path(r, Step(r, acc, e)))
  {
    if e == ".." && !(|acc| > 0 && acc[|acc| - 1] != "..") && !r {
      var n := acc + [".."];
      forall i, j | 0 <= i < j < |n| && n[j] == ".." ensures n[i] == ".." {
        if j < |acc| {
        } else {
          assert acc[|acc| - 1] == "..";
          assert i <= |acc| - 1;
        }
      }
    }
  }

  lemma {:induction false} NormalizeWellFormed(r: bool, acc: seq<string>, elems: seq<string>)
    requires WellFormed(Path(r, acc))
    requires forall i :: 0 <= i < |elems| ==> NoSep(elems[i])
    ensures WellFormed(Path(r, Normalize(r, acc, elems)))
    decreases |elems|
  {
    if elems != [] {
      StepWellFormed(r, acc, elems[0]);
      NormalizeWellFormed(r, Step(r, acc, elems[0]), elems[1..]);
    }
  }

  // ---------------------------------------------------------------------------
  // Lemmas about Clean, Render and Join

  /** The first character of a rendered path tells whether it is rooted. */
  lemma RenderFirst(p: Path)
    requires WellFormed(p)
    ensures |Render(p)| >= 1
    ensures Render(p)[0] == '/' <==> p.rooted
  {
    if !p.rooted && p.segs != [] {
      JoinSepHead(p.segs);
      assert Render(p)[0] == p.segs[0][0];
    }
  }

  /** A rendered rooted path never starts with "//". */
  lemma RenderRootedSecond(p: Path)
    requires WellFormed(p)
    ensures p.rooted && |Render(p)| >= 2 ==> Render(p)[1] != '/'
  {
    if p.rooted && |Render(p)| >= 2 {
      JoinSepHead(p.segs);
      assert Render(p)[1] == JoinSep(p.segs)[0] == p.segs[0][0];
    }
  }

  /** A rendered relative path never starts with "./". */
  lemma RenderRelativeNoDotSlash(p: Path)
    requires WellFormed(p)
    ensures !p.rooted && |Render(p)| >= 2 ==> !(Render(p)[0] == '.' && Render(p)[1] == '/')
  {
    if !p.rooted && |Render(p)| >= 2 {
      JoinSepHead(p.segs);
      var x := p.segs[0];
      assert Render(p)[0] == x[0];
      if |x| >= 2 {
        assert Render(p)[1] == x[1];
      } else {
        assert x == [x[0]];
      }
    }
  }

  /** Cleaning the rendering of a clean path gives the path back. */
  lemma CleanRender(p: Path)
    requires WellFormed(p)
    ensures Clean(Render(p)) == p
  {
    if p.rooted {
      CleanRenderRooted(p);
    } else if p.segs == [] {
      assert Render(p) == ".";
      assert Split(".") == ["."];
    } else {
      RenderFirst(p);
      SplitJoin(p.segs);
      NormalizeIdentity(false, [], p.segs);
      assert [] + p.segs == p.segs;
    }
  }

  lemma SplitRooted(j: string)
    ensures Split("/" + j) == [""] + Split(j)
  {
    assert "/" + j == "" + "/" + j;
    SplitConcat("", j);
    assert Split("") == [""];
  }

  lemma CleanRenderRooted(p: Path)
    requires WellFormed(p) && p.rooted
    ensures Clean(Render(p)) == p
  {
    var j := JoinSep(p.segs);
    var s := Render(p);
    assert s == "/" + j;
    SplitRooted(j);
    var xs := if p.segs == [] then [""] else p.segs;
    if p.segs != [] {
      SplitJoin(p.segs);
    }
    assert Split(s) == [""] + xs;
    assert Normalize(true, [], [""] + xs) == Normalize(true, [], xs);
    if p.segs == [] {
      assert Normalize(true, [], [""]) == [];
    } else {
      NormalizeIdentity(true, [], p.segs);
      assert [] + p.segs == p.segs;
    }
  }

  /** A plain name cleans to a one-element relative path. */
  lemma CleanName(n: string)
    requires IsName(n)
    ensures Clean(n) == Path(false, [n])
  {
    SplitNoSep(n);
    assert n[0] != '/';
    assert Normalize(false, [], [n]) == Normalize(false, [n], []);
  }

  lemma CleanEmpty()
    ensures Clean("") == Path(false, [])
  {
    assert Split("") == [""];
    assert Normalize(false, [], [""]) == Normalize(false, [], []);
  }

  /** filepath.Clean is idempotent. */
  lemma CleanIdempotent(s: string)
    ensures Clean(CleanString(s)) == Clean(s)
  {
    CleanRender(Clean(s));
  }

  /** Appending "/" and a plain name to a non-empty path appends one element. */
  lemma CleanAppend(s: string, n: string)
    requires s != "" && IsName(n)
    ensures Clean(s + "/" + n) == Child(Clean(s), n)
  {
    var r := s[0] == '/';
    assert (s + "/" + n)[0] == s[0];
    SplitConcat(s, n);
    SplitNoSep(n);
    NormalizeConcat(r, [], Split(s), [n]);
  }

  /** A trailing separator does not change the cleaned path. */
  lemma CleanTrailingSep(s: string)
    requires s != ""
    ensures Clean(s + "/") == Clean(s)
  {
    var r := s[0] == '/';
    assert s + "/" == s + "/" + "";
    assert (s + "/")[0] == s[0];
    SplitConcat(s, "");
    assert Split("") == [""];
    NormalizeConcat(r, [], Split(s), [""]);
  }

  /** Joining onto an already cleaned prefix is the same as joining onto the raw one. */
  lemma CleanConcat(x: string, y: string)
    requires x != ""
    ensures Clean(CleanString(x) + "/" + y) == Clean(x + "/" + y)
  {
    var p := Clean(x);
    RenderFirst(p);
    var c := CleanString(x);
    assert (c + "/" + y)[0] == c[0];
    assert (x + "/" + y)[0] == x[0];
    SplitConcat(c, y);
    SplitConcat(x, y);
    NormalizeConcat(p.rooted, [], Split(c), Split(y));
    NormalizeConcat(p.rooted, [], Split(x), Split(y));
    CleanRender(p);
  }

  lemma {:induction false} JoinEmpty(elems: seq<string>)
    ensures Join(elems) == "" <==> forall i :: 0 <= i < |elems| ==> elems[i] == ""
    ensures Join(elems) != "" ==> Join(elems) == Render(Clean(Join(elems)))
  {
    if elems != [] {
      if elems[0] == "" {
        JoinEmpty(elems[1..]);
        forall i | 0 <= i < |elems[1..]| ensures elems[1..][i] == elems[i + 1] { }
      } else {
        RenderFirst(Clean(JoinSep(elems)));
        CleanIdempotent(JoinSep(elems));
      }
    }
  }

  /** Joining one more plain name onto a Join appends one element to the cleaned path. */
  lemma {:induction false} JoinSnoc(elems: seq<string>, n: string)
    requires IsName(n)
    ensures Clean(Join(elems + [n])) == Child(Clean(Join(elems)), n)
  {
    if elems == [] {
      assert elems + [n] == [n];
      CleanIdempotent(n);
      CleanName(n);
      CleanEmpty();
    } else if elems[0] == "" {
      assert (elems + [n])[1..] == elems[1..] + [n];
      JoinSnoc(elems[1..], n);
    } else {
      JoinSepSnoc(elems, n);
      JoinSepHead(elems);
      CleanIdempotent(JoinSep(elems + [n]));
      CleanIdempotent(JoinSep(elems));
      CleanAppend(JoinSep(elems), n);
    }
  }

  /** filepath.Join flattens a nested Join. */
  lemma {:induction false} JoinFlatten(xs: seq<string>, ys: seq<string>)
    ensures Join([Join(xs)] + ys) == Join(xs + ys)
  {
    if xs == [] {
      assert ([""] + ys)[1..] == ys;
      assert xs + ys == ys;
    } else if xs[0] == "" {
      assert (xs + ys)[1..] == xs[1..] + ys;
      JoinFlatten(xs[1..], ys);
    } else {
      var j := Join(xs);
      RenderFirst(Clean(JoinSep(xs)));
      JoinSepHead(xs);
      if ys == [] {
        assert [j] + ys == [j];
        assert xs + ys == xs;
        CleanIdempotent(JoinSep(xs));
      } else {
        JoinSepConcat([j], ys);
        JoinSepConcat(xs, ys);
        CleanConcat(JoinSep(xs), JoinSep(ys));
      }
    }
  }

  lemma AppendAssoc(a: string, b: string, c: string)
    ensures a + b + c == a + (b + c)
  {
  }

  /** Extending the last element of a rendered child path. */
  lemma RenderChildSuffix(p: Path, x: string, sfx: string)
    ensures Render(Child(p, x)) + sfx == Render(Child(p, x + sfx))
  {
    var a, b := JoinSep(p.segs + [x]), JoinSep(p.segs + [x + sfx]);
    JoinSepSnoc(p.segs, x);
    JoinSepSnoc(p.segs, x + sfx);
    if p.segs != [] {
      AppendAssoc(JoinSep(p.segs) + "/", x, sfx);
    }
    assert a + sfx == b;
    if p.rooted {
      AppendAssoc("/", a, sfx);
    }
  }

  /** A rendered child path ends with the child's name, after a separator unless the name is all of it. */
  lemma RenderChildTail(p: Path, x: string)
    ensures var s := Render(Child(p, x));
      |s| >= |x| && s[|s| - |x|..] == x && (|s| > |x| ==> s[|s| - |x| - 1] == '/')
  {
    JoinSepSnoc(p.segs, x);
    var s := Render(Child(p, x));
    var pre := if p.rooted && p.segs == [] then "/"
      else if p.rooted then "/" + JoinSep(p.segs) + "/"
      else if p.segs == [] then ""
      else JoinSep(p.segs) + "/";
    assert s == pre + x;
    assert s[|s| - |x|..] == x;
  }

  /** Appending a proper name to a cleaned path keeps it clean. */
  lemma ChildWellFormed(p: Path, x: string)
    requires WellFormed(p) && IsName(x)
    ensures WellFormed(Child(p, x))
  {
  }

  /** The last separator of s is at k when s[k] is one and nothing after it is. */
  lemma {:induction false} LastSepAt(s: string, k: int)
    requires 0 <= k < |s| && s[k] == '/'
    requires forall i :: k < i < |s| ==> s[i] != '/'
    ensures LastSep(s) == k
    decreases |s|
  {
    if k < |s| - 1 {
      assert forall i :: k < i < |s| - 1 ==> s[..|s| - 1][i] == s[i];
      LastSepAt(s[..|s| - 1], k);
    }
  }

  lemma LastSepAfter(x: string, last: string)
    requires NoSep(last)
    ensures LastSep(x + "/" + last) == |x|
  {
    var s := x + "/" + last;
    LastSepTail(s, |x|);
  }

  lemma LastSepTail(s: string, k: int)
    requires 0 <= k < |s| && s[k] == '/' && NoSep(s[k + 1..])
    ensures LastSep(s) == k
  {
    forall i | k < i < |s|
      ensures s[i] != '/'
    {
      assert s[i] == s[k + 1..][i - k - 1];
    }
    LastSepAt(s, k);
  }

  /** filepath.Dir of a rendered path is its parent. */
  lemma DirRender(p: Path)
    requires WellFormed(p) && |p.segs| >= 1
    ensures Clean(Dir(Render(p))) == Parent(p)
  {
    if |p.segs| == 1 {
      DirRenderTop(p);
    } else {
      DirRenderDeep(p);
    }
  }

  lemma DirRenderTop(p: Path)
    requires WellFormed(p) && |p.segs| == 1
    ensures Clean(Dir(Render(p))) == Parent(p)
  {
    var last := p.segs[0];
    var s := Render(p);
    if p.rooted {
      assert s == "" + "/" + last;
      LastSepAfter("", last);
      assert s[..1] == "/";
      CleanIdempotent("/");
      SplitConcat("", "");
      assert Split("") == [""];
      assert Split("/") == ["", ""];
      assert Normalize(true, [], ["", ""]) == [];
    } else {
      assert s == last;
      assert LastSep(s) == -1;
      assert s[..0] == "";
      CleanIdempotent("");
      CleanEmpty();
    }
  }

  lemma DirRenderDeep(p: Path)
    requires WellFormed(p) && |p.segs| >= 2
    ensures Clean(Dir(Render(p))) == Parent(p)
  {
    var init, last := p.segs[..|p.segs| - 1], p.segs[|p.segs| - 1];
    assert p.segs == init + [last];
    JoinSepSnoc(init, last);
    var q := Path(p.rooted, init);
    assert WellFormed(q);
    var s := Render(p);
    var x := Render(q);
    assert s == x + "/" + last;
    LastSepAfter(x, last);
    assert s[..|x| + 1] == x + "/";
    RenderFirst(q);
    CleanIdempotent(x + "/");
    CleanTrailingSep(x);
    CleanRender(q);
  }

  // ---------------------------------------------------------------------------
  // The containment check of the archive extractor

  /** x + "/" can only be a prefix of y + "/" + rest when x == y. */
  lemma FirstElement(x: string, y: string, rest: string)
    requires NoSep(x) && NoSep(y)
    requires HasPrefix(y + "/" + rest, x + "/")
    ensures x == y
  {
    var s := y + "/" + rest;
    assert s[..|x| + 1] == x + "/";
    assert s[|x|] == '/';
    assert s[|y|] == '/';
    assert forall i :: 0 <= i < |y| ==> s[i] == y[i];
    assert forall i :: 0 <= i < |x| ==> s[i] == s[..|x| + 1][i] == x[i];
    assert |x| == |y|;
    assert s[..|x|] == x;
    assert s[..|y|] == y;
  }

  /** If joined elements start with other joined elements plus "/", the second
      list is a proper prefix of the first. */
  lemma {:induction false} PrefixElements(a: seq<string>, b: seq<string>)
    requires |a| >= 1
    requires forall i :: 0 <= i < |a| ==> a[i] != "" && NoSep(a[i])
    requires forall i :: 0 <= i < |b| ==> b[i] != "" && NoSep(b[i])
    requires HasPrefix(JoinSep(b), JoinSep(a) + "/")
    ensures |b| > |a| && b[..|a|] == a
    decreases |a|
  {
    var s := JoinSep(b);
    var ja := JoinSep(a);
    assert s[|ja|] == (ja + "/")[|ja|] == '/';
    assert |b| <= 1 ==> NoSep(s);
    assert |b| >= 2;
    var rest := JoinSep(b[1..]);
    assert s == b[0] + "/" + rest;
    if |a| == 1 {
      FirstElement(a[0], b[0], rest);
    } else {
      var ra := JoinSep(a[1..]);
      assert ja + "/" == a[0] + "/" + (ra + "/");
      assert HasPrefix(s, a[0] + "/") by {
        assert (ja + "/")[..|a[0]| + 1] == a[0] + "/";
      }
      FirstElement(a[0], b[0], rest);
      var d := |a[0]| + 1;
      assert s[d..] == rest;
      assert (ja + "/")[d..] == ra + "/";
      assert HasPrefix(rest, ra + "/") by {
        assert s[..|ja| + 1] == ja + "/";
        assert |ja| == d + |ra|;
        assert rest[..|ra| + 1] == s[d..|ja| + 1];
        assert s[d..|ja| + 1] == s[..|ja| + 1][d..];
      }
      PrefixElements(a[1..], b[1..]);
      assert b[..|a|] == [b[0]] + b[1..][..|a| - 1];
      assert a == [a[0]] + a[1..];
    }
  }

  /** The zip-slip check: a cleaned path whose rendering starts with the cleaned
      target directory plus "/" lies strictly inside that directory. */
  lemma PrefixCheckSound(p: Path, q: Path)
    requires WellFormed(p) && WellFormed(q)
    requires HasPrefix(Render(p), Render(q) + "/")
    ensures StrictlyInside(p, q)
  {
    RenderFirst(p);
    RenderFirst(q);
    var rp, rq := Render(p), Render(q);
    assert rp[0] == (rq + "/")[0];
    RenderRootedSecond(p);
    RenderRelativeNoDotSlash(p);
    if q.segs != [] {
      if q.rooted {
        assert p.rooted;
        assert rp == "/" + JoinSep(p.segs);
        assert rq + "/" == "/" + (JoinSep(q.segs) + "/");
        assert HasPrefix(JoinSep(p.segs), JoinSep(q.segs) + "/") by {
          assert rp[1..][..|rq|] == rp[..|rq| + 1][1..];
        }
        PrefixElements(q.segs, p.segs);
      } else {
        assert !p.rooted && p.segs != [];
        PrefixElements(q.segs, p.segs);
      }
    }
  }

  /** Conversely, every path strictly inside a non-root target passes the check. */
  lemma PrefixCheckComplete(p: Path, q: Path)
    requires WellFormed(p) && WellFormed(q) && q.segs != []
    requires StrictlyInside(p, q)
    ensures HasPrefix(Render(p), Render(q) + "/")
  {
    var rest := p.segs[|q.segs|..];
    assert p.segs == q.segs + rest;
    JoinSepConcat(q.segs, rest);
    if p.rooted {
      assert Render(p) == (Render(q) + "/") + JoinSep(rest);
    } else {
      assert Render(p) == (Render(q) + "/") + JoinSep(rest);
    }
  }

  /** With "/" or "." as the target directory the check rejects every path. */
  lemma PrefixCheckRejectsAtTop(p: Path, q: Path)
    requires WellFormed(p) && WellFormed(q) && q.segs == []
    ensures !HasPrefix(Render(p), Render(q) + "/")
  {
    RenderFirst(p);
    RenderRootedSecond(p);
    RenderRelativeNoDotSlash(p);
    var rp, pre := Render(p), Render(q) + "/";
    assert pre == [pre[0], pre[1]];
    assert |rp| >= 2 ==> rp[..2] == [rp[0], rp[1]];
  }
}
