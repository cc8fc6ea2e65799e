/**
 The routing table: path cleaning, the two redirects, and the longest subtree match.
 A pattern that would make registration panic is refused and leaves the table alone.
 */
module Mux {
  import opened Wrappers
  import opened Text
  import opened Ordering

  // ---- path cleaning --------------------------------------------------------------------------

  /** `split('/')`: one piece more than there are slashes. */
  function Split(p: string): (r: seq<string>)
    ensures r != []
  {
    if p == "" then [""]
    else if p[0] == '/' then [""] + Split(p[1..])
    else
      var rest := Split(p[1..]);
      [[p[0]] + rest[0]] + rest[1..]
  }

  function Join(segs: seq<string>): string {
    if segs == [] then ""
    else if |segs| == 1 then segs[0]
    else segs[0] + "/" + Join(segs[1..])
  }

  function Step(out: seq<string>, seg: string): seq<string> {
    if seg == "" || seg == "." then out
    else if seg == ".." then (if out == [] then out else out[..|out| - 1])
    else out + [seg]
  }

  /** What is on the stack once every segment has been seen. */
  function Resolve(segs: seq<string>): seq<string> {
    if segs == [] then [] else Step(Resolve(segs[..|segs| - 1]), segs[|segs| - 1])
  }

  function Rooted(segs: seq<string>): string {
    if segs == [] then "/" else "/" + Join(segs)
  }

  method LexicalClean(p: string) returns (r: string)
    ensures r == Rooted(Resolve(Split(p)))
  {
    hide Split, Join;
    var segs := Split(p);
    var out: seq<string> := [];
    for i := 0 to |segs|
      invariant out == Resolve(segs[..i])
    {
      assert segs[..i + 1][..i] == segs[..i];
      var seg := segs[i];
      if seg == "" || seg == "." {
      } else if seg == ".." {
        if out != [] {
          out := out[..|out| - 1];
        }
      } else {
        out := out + [seg];
      }
    }
    assert segs[..|segs|] == segs;
    r := if out == [] then "/" else "/" + Join(out);
  }

  function WithRoot(p: string): string {
    if p != "" && p[0] == '/' then p else "/" + p
  }

  predicate EndsInSlash(p: string) {
    p != "" && p[|p| - 1] == '/'
  }

  /** `Clean` drops a trailing slash; it is put back. */
  function CleanPath(p: string): string {
    if p == "" then "/"
    else
      var np := Rooted(Resolve(Split(WithRoot(p))));
      if EndsInSlash(WithRoot(p)) && np != "/" then np + "/" else np
  }

  method Clean(p: string) returns (r: string)
    ensures r == CleanPath(p)
  {
    if p == "" {
      return "/";
    }
    hide Split, Resolve, Rooted;
    r := LexicalClean(WithRoot(p));
    if EndsInSlash(WithRoot(p)) && r != "/" {
      r := r + "/";
    }
  }

  // ---- clean paths ----------------------------------------------------------------------------------

  /** A segment that cleaning leaves alone. */
  predicate Normal(seg: string) {
    seg != "" && seg != "." && seg != ".." && NoChar(seg, '/')
  }

  ghost predicate AllNormal(segs: seq<string>) {
    forall i :: 0 <= i < |segs| ==> Normal(segs[i])
  }

  lemma {:induction false} SplitHasNoSlash(p: string)
    ensures forall i :: 0 <= i < |Split(p)| ==> NoChar(Split(p)[i], '/')
    decreases |p|
  {
    if p != "" {
      SplitHasNoSlash(p[1..]);
    }
  }

  lemma {:induction false} ResolveIsNormal(segs: seq<string>)
    requires forall i :: 0 <= i < |segs| ==> NoChar(segs[i], '/')
    ensures AllNormal(Resolve(segs))
  {
    if segs != [] {
      ResolveIsNormal(segs[..|segs| - 1]);
    }
  }

  lemma {:induction false} ResolveNormal(segs: seq<string>)
    requires AllNormal(segs)
    ensures Resolve(segs) == segs
  {
    if segs != [] {
      ResolveNormal(segs[..|segs| - 1]);
      assert segs == segs[..|segs| - 1] + [segs[|segs| - 1]];
    }
  }

  lemma {:induction false} SplitSegment(seg: string, rest: string)
    requires NoChar(seg, '/')
    ensures Split(seg + "/" + rest) == [seg] + Split(rest)
    ensures Split(seg) == [seg]
  {
    if seg == "" {
      assert seg + "/" + rest == "/" + rest;
      assert ("/" + rest)[1..] == rest;
    } else {
      SplitSegment(seg[1..], rest);
      assert (seg + "/" + rest)[1..] == seg[1..] + "/" + rest;
      assert [seg[0]] + seg[1..] == seg;
    }
  }

  lemma {:induction false} SplitJoin(segs: seq<string>)
    requires segs != [] && AllNormal(segs)
    ensures Split(Join(segs)) == segs
    ensures Split(Join(segs) + "/") == segs + [""]
    ensures Join(segs) != "" && Join(segs)[0] != '/' && !EndsInSlash(Join(segs))
  {
    hide Split;
    assert Normal(segs[0]);
    if |segs| == 1 {
      SplitSegment(segs[0], "");
      assert segs[0] + "/" + "" == segs[0] + "/";
      EmptySplit();
    } else {
      var rest := Join(segs[1..]);
      SplitJoin(segs[1..]);
      SplitSegment(segs[0], rest);
      SplitSegment(segs[0], rest + "/");
      assert segs[0] + "/" + (rest + "/") == segs[0] + "/" + rest + "/";
      assert [segs[0]] + (segs[1..] + [""]) == segs + [""];
      assert [segs[0]] + segs[1..] == segs;
    }
  }

  lemma EmptySplit()
    ensures Split("") == [""]
  {
  }

  lemma SplitRooted(p: string)
    ensures Split("/" + p) == [""] + Split(p)
  {
    assert ("/" + p)[1..] == p;
  }

  lemma {:induction false} ResolveFront(segs: seq<string>)
    ensures Resolve([""] + segs) == Resolve(segs)
    ensures Resolve(segs + [""]) == Resolve(segs)
  {
    assert (segs + [""])[..|segs|] == segs;
    if segs == [] {
      assert [""] + segs == [""] && [""][..0] == [];
    } else {
      var init, last := segs[..|segs| - 1], segs[|segs| - 1];
      ResolveFront(init);
      assert ([""] + segs)[..|segs|] == [""] + init;
    }
  }

  /** A clean path: the root, or normal segments with at most a trailing slash. */
  ghost predicate IsClean(p: string) {
    p == "/" || exists segs: seq<string> :: segs != [] && AllNormal(segs) && (p == "/" + Join(segs) || p == "/" + Join(segs) + "/")
  }

  /** Cleaning always gives a clean path. */
  lemma CleanPathIsClean(p: string)
    ensures IsClean(CleanPath(p))
  {
    if p != "" {
      var segs := Resolve(Split(WithRoot(p)));
      SplitHasNoSlash(WithRoot(p));
      ResolveIsNormal(Split(WithRoot(p)));
      hide Split, Resolve, Normal, Join;
      assert segs != [] ==> Rooted(segs) == "/" + Join(segs);
    }
  }

  lemma CleanSegments(segs: seq<string>)
    requires segs != [] && AllNormal(segs)
    ensures CleanPath("/" + Join(segs)) == "/" + Join(segs)
    ensures CleanPath("/" + Join(segs) + "/") == "/" + Join(segs) + "/"
  {
    hide Split, Resolve, Join;
    SplitJoin(segs);
    SplitRooted(Join(segs));
    SplitRooted(Join(segs) + "/");
    assert "/" + (Join(segs) + "/") == "/" + Join(segs) + "/";
    ResolveFront(segs);
    ResolveFront(segs + [""]);
    ResolveNormal(segs);
    assert ("/" + Join(segs))[|Join(segs)|] == Join(segs)[|Join(segs)| - 1];
  }

  lemma CleanRoot()
    ensures CleanPath("/") == "/"
  {
    EmptySplit();
    SplitRooted("");
    assert "/" + "" == "/";
    assert [""] + [""] == ["", ""] && ["", ""][..1] == [""] && [""][..0] == [];
  }

  /** Exactly the clean paths stay as they are. */
  lemma CleanPathFixes(p: string)
    ensures CleanPath(p) == p <==> IsClean(p)
  {
    hide CleanPath, AllNormal, Join;
    CleanPathIsClean(p);
    if IsClean(p) {
      if p == "/" {
        CleanRoot();
      } else {
        var segs: seq<string> :| segs != [] && AllNormal(segs) && (p == "/" + Join(segs) || p == "/" + Join(segs) + "/");
        CleanSegments(segs);
      }
    }
  }

  lemma CleanPathIdempotent(p: string)
    ensures CleanPath(CleanPath(p)) == CleanPath(p)
  {
    CleanPathIsClean(p);
    CleanPathFixes(CleanPath(p));
  }

  /** Adding the trailing slash to a clean path that has none leaves it clean. */
  lemma SlashStaysClean(p: string)
    requires IsClean(p) && !EndsInSlash(p)
    ensures CleanPath(p + "/") == p + "/"
  {
    hide CleanPath, AllNormal, Join;
    var segs: seq<string> :| segs != [] && AllNormal(segs) && (p == "/" + Join(segs) || p == "/" + Join(segs) + "/");
    CleanSegments(segs);
  }

  // ---- dots and double dots --------------------------------------------------------------------------

  lemma {:induction false} SplitSlash(a: string, b: string)
    ensures Split(a + "/" + b) == Split(a) + Split(b)
  {
    if a == "" {
      assert a + "/" + b == "/" + b;
      SplitRooted(b);
    } else {
      assert (a + "/" + b)[1..] == a[1..] + "/" + b;
      SplitSlash(a[1..], b);
    }
  }

  lemma {:induction false} ResolveOn(s: seq<string>, t: seq<string>, u: seq<string>)
    requires Resolve(s) == Resolve(t)
    ensures Resolve(s + u) == Resolve(t + u)
    decreases |u|
  {
    if u == [] {
      assert s + u == s && t + u == t;
    } else {
      var init := u[..|u| - 1];
      ResolveOn(s, t, init);
      assert (s + u)[..|s + u| - 1] == s + init && (t + u)[..|t + u| - 1] == t + init;
    }
  }

  lemma ResolveSnoc(s: seq<string>, seg: string)
    ensures Resolve(s + [seg]) == Step(Resolve(s), seg)
  {
    assert (s + [seg])[..|s|] == s;
  }

  /** A segment and the double dot after it leave nothing behind. */
  lemma DotDotStep(s: seq<string>, x: string)
    requires Normal(x)
    ensures Resolve(s + [x, ".."]) == Resolve(s)
  {
    ResolveSnoc(s, x);
    ResolveSnoc(s + [x], "..");
    assert s + [x] + [".."] == s + [x, ".."];
    assert (Resolve(s) + [x])[..|Resolve(s)|] == Resolve(s);
    hide Resolve;
  }

  /** What may come after a segment: nothing, or a slash and more. */
  predicate Onward(q: string) {
    q == "" || q[0] == '/'
  }

  function SegmentsOf(q: string): seq<string> {
    if q == "" then [] else Split(q[1..])
  }

  lemma SplitOnward(a: string, q: string)
    requires Onward(q)
    ensures Split(a + q) == Split(a) + SegmentsOf(q)
  {
    if q == "" {
      assert a + q == a;
    } else {
      SplitSlash(a, q[1..]);
      assert a + "/" + q[1..] == a + q;
    }
  }

  /** Paths with the same segments left and the same ending are cleaned to the same path. */
  lemma SameClean(a: string, b: string)
    requires a != "" && b != "" && Resolve(Split(WithRoot(a))) == Resolve(Split(WithRoot(b)))
    requires EndsInSlash(a) == EndsInSlash(b) || Resolve(Split(WithRoot(a))) == []
    ensures CleanPath(a) == CleanPath(b)
  {
    assert EndsInSlash(WithRoot(a)) == EndsInSlash(a) && EndsInSlash(WithRoot(b)) == EndsInSlash(b);
    hide Split, Resolve;
  }

  lemma RootedSegments(p: string, middle: string, q: string)
    requires Onward(middle) && Onward(q) && p + middle + q != ""
    ensures var r := if p == "" then "" else WithRoot(p);
            WithRoot(p + middle + q) == r + (middle + q)
  {
    if p != "" {
      assert (p + middle + q)[0] == p[0];
      assert "/" + (p + middle + q) == "/" + p + (middle + q);
    } else {
      assert p + middle + q == middle + q;
    }
  }

  lemma EmptyRoot()
    ensures Resolve(Split("")) == [] && Resolve(Split(WithRoot("/"))) == [] && CleanPath("") == "/"
  {
    EmptySplit();
    SplitRooted("");
    assert "/" + "" == "/";
    assert [""] + [""] == ["", ""] && ["", ""][..1] == [""] && [""][..0] == [];
  }

  lemma EndOf(a: string, q: string)
    requires Onward(q)
    ensures q != "" ==> EndsInSlash(a + q) == EndsInSlash(q)
  {
  }

  ghost predicate Cancels(middle: string) {
    Onward(middle) && forall s :: Resolve(s + SegmentsOf(middle)) == Resolve(s)
  }

  lemma InsertedResolve(r: string, middle: string, q: string)
    requires Cancels(middle) && Onward(q)
    ensures Resolve(Split(r + (middle + q))) == Resolve(Split(r + q))
  {
    hide Split, Resolve, SegmentsOf;
    SplitOnward(r, middle);
    SplitOnward(r + middle, q);
    SplitOnward(r, q);
    assert r + middle + q == r + (middle + q);
    ResolveOn(Split(r) + SegmentsOf(middle), Split(r), SegmentsOf(q));
  }

  lemma SameEnding(p: string, middle: string, q: string)
    requires Onward(middle) && Onward(q) && middle != "" && (q == "" ==> !EndsInSlash(p) && !EndsInSlash(middle))
    ensures EndsInSlash(p + middle + q) == EndsInSlash(p + q)
  {
    if q == "" {
      assert p + middle + q == p + middle && p + q == p;
    } else {
      EndOf(p + middle, q);
      EndOf(p, q);
    }
  }

  lemma InsertedAtRoot(middle: string)
    requires Cancels(middle) && middle != "" && !EndsInSlash(middle)
    ensures CleanPath("" + middle + "") == CleanPath("" + "")
  {
    CancelsIsOnward(middle);
    hide *;
    OnwardEmpty();
    RootedSegments("", middle, "");
    InsertedResolve("", middle, "");
    EmptyRoot();
    CleanRoot();
    assert "" + middle + "" == middle && "" + (middle + "") == middle && "" + "" == "";
    SameClean(middle, "/");
  }

  /** Putting in segments that cancel out changes nothing. */
  lemma InsertedSegments(p: string, middle: string, q: string)
    requires Cancels(middle) && Onward(q) && middle != "" && (q == "" ==> !EndsInSlash(p) && !EndsInSlash(middle))
    ensures CleanPath(p + middle + q) == CleanPath(p + q)
  {
    if p == "" && q == "" {
      InsertedAtRoot(middle);
    } else {
      CancelsIsOnward(middle);
      InsertedInside(p, middle, q);
    }
    hide *;
  }

  lemma InsertedInside(p: string, middle: string, q: string)
    requires Cancels(middle) && Onward(middle) && Onward(q) && middle != "" && p + q != ""
    requires q == "" ==> !EndsInSlash(p) && !EndsInSlash(middle)
    ensures CleanPath(p + middle + q) == CleanPath(p + q)
  {
    hide *;
    var r := if p == "" then "" else WithRoot(p);
    RootedSegments(p, middle, q);
    InsertedResolve(r, middle, q);
    SameEnding(p, middle, q);
    OnwardEmpty();
    RootedSegments(p, "", q);
    Units(p, q);
    SameClean(p + middle + q, p + q);
  }

  lemma Units(p: string, q: string)
    ensures p + "" + q == p + q && "" + q == q
  {
  }

  lemma CancelsIsOnward(middle: string)
    requires Cancels(middle)
    ensures Onward(middle)
  {
  }

  lemma OnwardEmpty()
    ensures Onward("")
  {
  }

  /** A double dot takes the segment before it off, wherever in the path it stands. */
  lemma DotDotTakesBack(p: string, x: string, q: string)
    requires Normal(x) && Onward(q) && (q == "" ==> !EndsInSlash(p))
    ensures CleanPath(p + ("/" + x + "/..") + q) == CleanPath(p + q)
  {
    hide *;
    var middle := "/" + x + "/..";
    DotDotEnd(x);
    DotDotCancels(x);
    InsertedSegments(p, middle, q);
  }

  lemma DotDotCancels(x: string)
    requires Normal(x)
    ensures Cancels("/" + x + "/..")
  {
    hide Resolve, Normal, SegmentsOf;
    DotDotSegments(x);
    DotDotEnd(x);
    forall s ensures Resolve(s + SegmentsOf("/" + x + "/..")) == Resolve(s) {
      DotDotStep(s, x);
    }
  }

  lemma DotDotSegments(x: string)
    requires Normal(x)
    ensures SegmentsOf("/" + x + "/..") == [x, ".."]
  {
    SplitSegment(x, "..");
    SplitSegment("..", "");
    assert ("/" + x + "/..")[1..] == x + "/" + "..";
    hide Split;
  }

  lemma DotDotEnd(x: string)
    ensures Onward("/" + x + "/..") && "/" + x + "/.." != "" && !EndsInSlash("/" + x + "/..")
  {
  }

  /** At the root there is nothing to take off, and a single dot never takes anything. */
  lemma DotsVanish(p: string, q: string)
    requires Onward(q) && (q == "" ==> !EndsInSlash(p))
    ensures CleanPath("/.." + q) == CleanPath(q)
    ensures CleanPath(p + "/." + q) == CleanPath(p + q)
    ensures q != "" ==> CleanPath(p + "/" + q) == CleanPath(p + q)
  {
    hide CleanPath, Resolve, Split, SegmentsOf;
    DotsCancel();
    InsertedSegments(p, "/.", q);
    if q != "" {
      InsertedSegments(p, "/", q);
    }
    RootDotDot(q);
  }

  lemma DotsCancel()
    ensures Cancels("/.") && Cancels("/")
  {
    hide Resolve, Split;
    SplitSegment(".", "");
    EmptySplit();
    assert "/."[1..] == "." && "/"[1..] == "";
    forall s ensures Resolve(s + ["."]) == Resolve(s) && Resolve(s + [""]) == Resolve(s) {
      ResolveSnoc(s, ".");
      ResolveSnoc(s, "");
    }
  }

  lemma RootDotDot(q: string)
    requires Onward(q)
    ensures CleanPath("/.." + q) == CleanPath(q)
  {
    hide Split, Resolve, CleanPath;
    SplitOnward("/..", q);
    SplitOnward("", q);
    assert "" + q == q;
    SplitRooted("..");
    SplitSegment("..", "");
    assert "/" + ".." == "/..";
    ResolveSnoc([""], "..");
    assert [""] + [".."] == ["", ".."];
    EmptyRoot();
    EmptySplit();
    ResolveOn(["", ".."], [""], SegmentsOf(q));
    EndOf("/..", q);
    if q == "" {
      assert "/.." + q == "/..";
      SameClean("/..", "/");
      CleanRoot();
    } else {
      SameClean("/.." + q, q);
    }
  }

  // ---- matching --------------------------------------------------------------------------------------

  predicate IsSubtree(pattern: string, path: string) {
    EndsInSlash(pattern) && pattern <= path
  }

  /** `filter(..).max_by_key(len)` over the keys in order. */
  function LongestSubtree(patterns: seq<string>, path: string): Option<string> {
    if patterns == [] then None
    else
      var best := LongestSubtree(patterns[..|patterns| - 1], path);
      var last := patterns[|patterns| - 1];
      if IsSubtree(last, path) && (best.None? || |last| >= |best.value|) then Some(last) else best
  }

  function MatchPath(patterns: set<string>, path: string): Option<string> {
    if path in patterns then Some(path) else LongestSubtree(Sorted(patterns), path)
  }

  lemma {:induction false} LongestIsLongest(patterns: seq<string>, path: string)
    ensures match LongestSubtree(patterns, path)
            case None => forall p :: p in patterns ==> !IsSubtree(p, path)
            case Some(best) =>
              && best in patterns && IsSubtree(best, path)
              && forall p :: p in patterns && IsSubtree(p, path) && p != best ==> |p| < |best|
  {
    if patterns != [] {
      var init, last := patterns[..|patterns| - 1], patterns[|patterns| - 1];
      LongestIsLongest(init, path);
      assert patterns == init + [last];
      hide EndsInSlash;
      var best := LongestSubtree(init, path);
      if best.Some? && IsSubtree(last, path) && |last| == |best.value| {
        assert last == path[..|last|] == best.value;
      }
    }
  }

  lemma SubtreeExactly(pattern: string, path: string)
    ensures IsSubtree(pattern, path) <==> exists dir, rest :: pattern == dir + "/" && path == dir + "/" + rest
  {
    if IsSubtree(pattern, path) {
      var dir, rest := pattern[..|pattern| - 1], path[|pattern|..];
      assert pattern == dir + "/" && path == dir + "/" + rest;
    }
  }

  /**
   A match is exact, or the one longest registered subtree the path lies in: a pattern that
   ends in a slash, with the path going on from there.
   */
  lemma MatchIsMostSpecific(patterns: set<string>, path: string)
    ensures match MatchPath(patterns, path)
            case None => path !in patterns && forall p :: p in patterns ==> !IsSubtree(p, path)
            case Some(m) =>
              && m in patterns
              && (m == path || (path !in patterns && exists dir, rest :: m == dir + "/" && path == dir + "/" + rest))
              && forall p :: p in patterns && IsSubtree(p, path) && p != m ==> |p| < |m|
  {
    if path in patterns {
      forall p | p in patterns && IsSubtree(p, path) && p != path ensures |p| < |path| {
        assert |p| == |path| ==> p == path;
      }
    } else {
      LongestIsLongest(Sorted(patterns), path);
      if MatchPath(patterns, path).Some? {
        SubtreeExactly(MatchPath(patterns, path).value, path);
      }
    }
  }

  // ---- routing --------------------------------------------------------------------------------------

  datatype Route<H> = Found(pattern: string, handler: H) | Redirect(location: string) | NotFound

  function WithQuery(path: string, query: string): string {
    if query == "" then path else path + "?" + query
  }

  /** The trailing slash that would make an exact match; decided before the cleaning redirect. */
  predicate WantsSlash(patterns: set<string>, cleaned: string) {
    && MatchPath(patterns, cleaned) != Some(cleaned) && !EndsInSlash(cleaned) && cleaned != ""
    && MatchPath(patterns, cleaned + "/") == Some(cleaned + "/")
  }

  /** Where a request for this path is sent instead, if anywhere. */
  function Elsewhere(patterns: set<string>, path: string): Option<string> {
    var cleaned := CleanPath(path);
    if WantsSlash(patterns, cleaned) then Some(cleaned + "/")
    else if cleaned != path then Some(cleaned)
    else None
  }

  class GoMux<H(==)> {
    var routes: map<string, H>

    constructor ()
      ensures routes == map[]
    {
      routes := map[];
    }

    /** False is the panic at startup; nothing is registered then. */
    method Handle(pattern: string, handler: H) returns (ok: bool)
      modifies this
      ensures ok <==> pattern != "" && pattern[0] == '/' && pattern !in old(routes)
      ensures routes == if ok then old(routes)[pattern := handler] else old(routes)
    {
      if pattern == "" || pattern[0] != '/' || pattern in routes {
        return false;
      }
      routes := routes[pattern := handler];
      return true;
    }

    method RouteRequest(path: string, query: string) returns (r: Route<H>)
      ensures match Elsewhere(routes.Keys, path)
              case Some(target) => r == Redirect(WithQuery(target, query))
              case None =>
                match MatchPath(routes.Keys, path)
                case Some(pattern) => pattern in routes && r == Found(pattern, routes[pattern])
                case None => r == NotFound
    {
      hide CleanPath, MatchPath;
      var cleaned := Clean(path);
      var matched := MatchPath(routes.Keys, cleaned);
      if matched != Some(cleaned) && !EndsInSlash(cleaned) && cleaned != "" {
        var withSlash := cleaned + "/";
        if MatchPath(routes.Keys, withSlash) == Some(withSlash) {
          return Redirect(WithQuery(withSlash, query));
        }
      }
      if cleaned != path {
        return Redirect(WithQuery(cleaned, query));
      }
      MatchIsMostSpecific(routes.Keys, path);
      match matched
      case Some(pattern) => return Found(pattern, routes[pattern]);
      case None => return NotFound;
    }
  }

  // ---- redirects settle --------------------------------------------------------------------------------

  lemma ExactMatch(patterns: set<string>, path: string)
    ensures MatchPath(patterns, path) == Some(path) <==> path in patterns
  {
    MatchIsMostSpecific(patterns, path);
  }

  /**
   Who is sent elsewhere, and where to: a path whose subtree is registered and it itself is not
   gets the slash, any other that is not clean goes to its clean form, and the rest stay.
   */
  lemma ElsewhereExactly(patterns: set<string>, path: string)
    ensures var cleaned := CleanPath(path);
            Elsewhere(patterns, path) ==
              if cleaned !in patterns && cleaned + "/" in patterns && cleaned[|cleaned| - 1] != '/' then Some(cleaned + "/")
              else if IsClean(path) then None
              else Some(cleaned)
  {
    var cleaned := CleanPath(path);
    CleanPathIsClean(path);
    CleanPathFixes(path);
    ExactMatch(patterns, cleaned);
    ExactMatch(patterns, cleaned + "/");
    CleanIsRooted(cleaned);
    hide CleanPath, MatchPath, IsClean;
  }

  lemma CleanIsRooted(p: string)
    requires IsClean(p)
    ensures p != "" && p[0] == '/'
  {
    hide AllNormal, Join;
  }

  /** Where a redirect points, nothing redirects again. */
  lemma RedirectSettles(patterns: set<string>, path: string)
    ensures Elsewhere(patterns, path).Some? ==> Elsewhere(patterns, Elsewhere(patterns, path).value) == None
  {
    var cleaned := CleanPath(path);
    CleanPathIdempotent(path);
    CleanPathIsClean(path);
    if WantsSlash(patterns, cleaned) {
      SlashStaysClean(cleaned);
      hide CleanPath, MatchPath, IsClean;
      ExactMatch(patterns, cleaned + "/");
    } else {
      hide CleanPath, MatchPath, IsClean;
    }
  }

  predicate NoQuery(path: string) {
    NoChar(path, '?')
  }

  lemma {:induction false} SplitNoQuery(p: string)
    requires NoQuery(p)
    ensures forall i :: 0 <= i < |Split(p)| ==> NoQuery(Split(p)[i])
    decreases |p|
  {
    if p != "" {
      SplitNoQuery(p[1..]);
    }
  }

  lemma {:induction false} ResolveNoQuery(segs: seq<string>)
    requires forall i :: 0 <= i < |segs| ==> NoQuery(segs[i])
    ensures forall i :: 0 <= i < |Resolve(segs)| ==> NoQuery(Resolve(segs)[i])
  {
    if segs != [] {
      ResolveNoQuery(segs[..|segs| - 1]);
    }
  }

  lemma {:induction false} JoinNoQuery(segs: seq<string>)
    requires forall i :: 0 <= i < |segs| ==> NoQuery(segs[i])
    ensures NoQuery(Join(segs))
  {
    if |segs| > 1 {
      JoinNoQuery(segs[1..]);
    }
  }

  lemma CleanPathNoQuery(p: string)
    requires NoQuery(p)
    ensures NoQuery(CleanPath(p))
  {
    SplitNoQuery(WithRoot(p));
    ResolveNoQuery(Split(WithRoot(p)));
    JoinNoQuery(Resolve(Split(WithRoot(p))));
    hide Split, Resolve, Join;
  }

  /** Path and query of a request line. */
  function ParseLocation(location: string): (string, string) {
    match SplitOnce(location, '?')
    case None => (location, "")
    case Some(pair) => pair
  }

  /**
   Following any redirect from the table, by the location it names, keeps the query
   and is never answered by another redirect.
   */
  lemma FollowedOnce(patterns: set<string>, path: string, query: string)
    requires NoQuery(path) && Elsewhere(patterns, path).Some?
    ensures var (next, carried) := ParseLocation(WithQuery(Elsewhere(patterns, path).value, query));
            carried == query && next == Elsewhere(patterns, path).value && Elsewhere(patterns, next) == None
  {
    CleanPathNoQuery(path);
    RedirectSettles(patterns, path);
    var target := Elsewhere(patterns, path).value;
    assert NoQuery(target) by {
      hide CleanPath, MatchPath;
    }
    hide Elsewhere;
    if query != "" {
      SplitOnceAt(target, '?', query);
      assert target + "?" + query == target + ['?'] + query;
    }
  }
}
