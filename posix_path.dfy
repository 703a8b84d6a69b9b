/** Node.js's POSIX `path.normalize` and `path.join`, which `getFilePath`
    and the client's save paths are built from. Node's own source is not
    part of this repository; what is modelled here is the behaviour of its
    `normalizeString` loop, stated on '/'-separated segments. */
module PosixPath {

  /** No piece contains a '/'. */
  predicate SlashFree(segs: seq<string>)
  {
    forall i :: 0 <= i < |segs| ==> '/' !in segs[i]
  }

  /** `s.split('/')`: never empty, and no piece contains a '/'. */
  function Split(s: string): (r: seq<string>)
    ensures |r| >= 1 && SlashFree(r)
  {
    if s == [] then [""]
    else if s[0] == '/' then [""] + Split(s[1..])
    else var t := Split(s[1..]); [[s[0]] + t[0]] + t[1..]
  }

  /** `segs.join('/')`. */
  function JoinSegs(segs: seq<string>): string
  {
    if |segs| == 0 then ""
    else if |segs| == 1 then segs[0]
    else segs[0] + "/" + JoinSegs(segs[1..])
  }

  lemma JoinSegsCons(x: string, rest: seq<string>)
    requires rest != []
    ensures JoinSegs([x] + rest) == x + "/" + JoinSegs(rest)
  {
    assert ([x] + rest)[1..] == rest;
  }

  /** Joining the pieces of a split gives back the string. */
  lemma {:induction false} JoinOfSplit(s: string)
    ensures JoinSegs(Split(s)) == s
  {
    if s != [] {
      JoinOfSplit(s[1..]);
      if s[0] == '/' {
        JoinOfSplitSlash(s);
      } else {
        JoinOfSplitChar(s);
      }
    }
  }

  /** The step of `JoinOfSplit` for a leading '/'. */
  lemma JoinOfSplitSlash(s: string)
    requires s != [] && s[0] == '/' && JoinSegs(Split(s[1..])) == s[1..]
    ensures JoinSegs(Split(s)) == s
  {
    var u := s[1..];
    assert Split(s) == [""] + Split(u);
    JoinSegsCons("", Split(u));
    assert s == "/" + u;
  }

  /** The step of `JoinOfSplit` for a leading character other than '/'. */
  lemma JoinOfSplitChar(s: string)
    requires s != [] && s[0] != '/' && JoinSegs(Split(s[1..])) == s[1..]
    ensures JoinSegs(Split(s)) == s
  {
    var t := Split(s[1..]);
    assert Split(s) == [[s[0]] + t[0]] + t[1..];
    JoinSegsPrepend(s[0], t);
    assert s == [s[0]] + s[1..];
  }

  /** A character put in front of the first piece is put in front of the join. */
  lemma JoinSegsPrepend(c: char, t: seq<string>)
    requires |t| >= 1
    ensures JoinSegs([[c] + t[0]] + t[1..]) == [c] + JoinSegs(t)
  {
    if |t| == 1 {
      assert [[c] + t[0]] + t[1..] == [[c] + t[0]];
    } else {
      JoinSegsPrependMany(c, t);
    }
  }

  lemma JoinSegsPrependMany(c: char, t: seq<string>)
    requires |t| >= 2
    ensures JoinSegs([[c] + t[0]] + t[1..]) == [c] + JoinSegs(t)
  {
    var h := [c] + t[0];
    var tail := t[1..];
    var rest := JoinSegs(tail);
    assert JoinSegs([h] + tail) == h + "/" + rest by {
      JoinSegsCons(h, tail);
    }
    assert JoinSegs(t) == t[0] + "/" + rest by {
      assert t == [t[0]] + tail;
      JoinSegsCons(t[0], tail);
    }
    PrependAssoc([c], t[0], "/", rest);
  }

  lemma PrependAssoc<T>(a: seq<T>, b: seq<T>, d: seq<T>, e: seq<T>)
    ensures a + (b + d + e) == a + b + d + e
  {
  }

  /** Splitting at an explicit separator splits both sides independently. */
  lemma {:induction false} SplitAtSlash(a: string, b: string)
    ensures Split(a + "/" + b) == Split(a) + Split(b)
  {
    if a == [] {
      assert a + "/" + b == "/" + b;
      assert ("/" + b)[1..] == b;
    } else if a[0] == '/' {
      assert (a + "/" + b)[1..] == a[1..] + "/" + b;
      SplitAtSlash(a[1..], b);
    } else {
      assert (a + "/" + b)[1..] == a[1..] + "/" + b;
      SplitAtSlash(a[1..], b);
    }
  }

  lemma {:induction false} SplitWithoutSlash(s: string)
    requires '/' !in s
    ensures Split(s) == [s]
  {
    if s != [] {
      assert '/' !in s[1..];
      SplitWithoutSlash(s[1..]);
      assert s == [s[0]] + s[1..];
    }
  }

  /** Splitting a join of slash-free pieces gives back the pieces. */
  lemma {:induction false} SplitOfJoin(segs: seq<string>)
    requires |segs| >= 1 && SlashFree(segs)
    ensures Split(JoinSegs(segs)) == segs
  {
    if |segs| == 1 {
      SplitWithoutSlash(segs[0]);
    } else {
      var rest := segs[1..];
      assert SlashFree(rest) by {
        forall i | 0 <= i < |rest|
          ensures '/' !in rest[i]
        {
          assert rest[i] == segs[i + 1];
        }
      }
      assert Split(JoinSegs(rest)) == rest by {
        SplitOfJoin(rest);
      }
      assert Split(segs[0]) == [segs[0]] by {
        SplitWithoutSlash(segs[0]);
      }
      assert JoinSegs(segs) == segs[0] + "/" + JoinSegs(rest);
      SplitAtSlash(segs[0], JoinSegs(rest));
      assert segs == [segs[0]] + rest;
    }
  }

  lemma SplitCons(c: char, s: string)
    requires c != '/'
    ensures Split([c] + s) == [[c] + Split(s)[0]] + Split(s)[1..]
  {
    assert ([c] + s)[1..] == s;
  }

  /** The first piece of a split is the text up to the first '/'. */
  lemma {:induction false} SplitHead(s: string)
    ensures |Split(s)[0]| <= |s| && Split(s)[0] == s[..|Split(s)[0]|]
    ensures |Split(s)[0]| == |s| || s[|Split(s)[0]|] == '/'
  {
    if s != [] && s[0] != '/' {
      var u := s[1..];
      var h := Split(u)[0];
      SplitHead(u);
      assert s == [s[0]] + u;
      ConsSlice(s[0], u, |h|);
      assert Split(s)[0] == [s[0]] + h;
    }
  }

  lemma ConsSlice<T>(c: T, u: seq<T>, n: nat)
    requires n <= |u|
    ensures ([c] + u)[..n + 1] == [c] + u[..n]
    ensures n < |u| ==> ([c] + u)[n + 1] == u[n]
  {
  }

  lemma JoinSegsAppend(a: seq<string>, b: seq<string>)
    requires a != [] && b != []
    ensures JoinSegs(a + b) == JoinSegs(a) + "/" + JoinSegs(b)
    decreases |a|
  {
    if |a| == 1 {
      assert a + b == [a[0]] + b;
    } else {
      assert (a + b)[1..] == a[1..] + b;
      JoinSegsAppend(a[1..], b);
    }
  }

  /** A segment that names an entry: not empty, not '.', not '..'. */
  predicate IsName(seg: string)
  {
    seg != "" && seg != "." && seg != ".." && '/' !in seg
  }

  /** Every '..' comes before every other segment. */
  predicate DotDotsLead(segs: seq<string>)
  {
    forall i, j :: 0 <= i < j < |segs| && segs[j] == ".." ==> segs[i] == ".."
  }

  /** No segment is '..'. */
  predicate NoDotDot(segs: seq<string>)
  {
    forall i :: 0 <= i < |segs| ==> segs[i] != ".."
  }

  /** The shape of a normalized segment list: names and '..' only, the
      '..' in front, and none at all above the root of an absolute path. */
  predicate Canonical(stack: seq<string>, allowAboveRoot: bool)
  {
    && (forall i :: 0 <= i < |stack| ==> stack[i] == ".." || IsName(stack[i]))
    && DotDotsLead(stack)
    && (!allowAboveRoot ==> forall i :: 0 <= i < |stack| ==> stack[i] != "..")
  }

  /** One segment of `normalizeString`: empty and '.' segments are skipped,
      '..' cancels the last name, or is kept when there is none and the path
      is relative, or dropped at the root of an absolute path. */
  function Step(stack: seq<string>, seg: string, allowAboveRoot: bool): seq<string>
  {
    if seg == "" || seg == "." then stack
    else if seg == ".." then
      if |stack| > 0 && stack[|stack| - 1] != ".." then stack[..|stack| - 1]
      else if allowAboveRoot then stack + [".."]
      else stack
    else stack + [seg]
  }

  /** `normalizeString` over a list of segments, left to right. */
  function Resolve(stack: seq<string>, segs: seq<string>, allowAboveRoot: bool): seq<string>
    decreases |segs|
  {
    if segs == [] then stack
    else Resolve(Step(stack, segs[0], allowAboveRoot), segs[1..], allowAboveRoot)
  }

  lemma StepKeepsCanonical(stack: seq<string>, seg: string, allowAboveRoot: bool)
    requires Canonical(stack, allowAboveRoot) && '/' !in seg
    ensures Canonical(Step(stack, seg, allowAboveRoot), allowAboveRoot)
  {
  }

  /** Normalizing keeps a segment list in canonical shape. */
  lemma {:induction false} ResolveKeepsCanonical(stack: seq<string>, segs: seq<string>, allowAboveRoot: bool)
    requires Canonical(stack, allowAboveRoot) && SlashFree(segs)
    ensures Canonical(Resolve(stack, segs, allowAboveRoot), allowAboveRoot)
    decreases |segs|
  {
    if segs != [] {
      StepKeepsCanonical(stack, segs[0], allowAboveRoot);
      ResolveKeepsCanonical(Step(stack, segs[0], allowAboveRoot), segs[1..], allowAboveRoot);
    }
  }

  lemma {:induction false} ResolveAppend(stack: seq<string>, a: seq<string>, b: seq<string>, allowAboveRoot: bool)
    ensures Resolve(stack, a + b, allowAboveRoot) == Resolve(Resolve(stack, a, allowAboveRoot), b, allowAboveRoot)
    decreases |a|
  {
    if a == [] {
      assert a + b == b;
    } else {
      assert (a + b)[1..] == a[1..] + b;
      ResolveAppend(Step(stack, a[0], allowAboveRoot), a[1..], b, allowAboveRoot);
    }
  }

  /** The segments a `..`-free list contributes: all but '' and '.'. */
  function Names(segs: seq<string>): seq<string>
  {
    if segs == [] then []
    else (if segs[0] == "" || segs[0] == "." then [] else [segs[0]]) + Names(segs[1..])
  }

  /** Without '..' segments, normalizing only appends the named segments. */
  lemma {:induction false} ResolveWithoutDotDot(stack: seq<string>, segs: seq<string>, allowAboveRoot: bool)
    requires NoDotDot(segs)
    ensures Resolve(stack, segs, allowAboveRoot) == stack + Names(segs)
    decreases |segs|
  {
    if segs != [] {
      var head := if segs[0] == "" || segs[0] == "." then [] else [segs[0]];
      var next := Step(stack, segs[0], allowAboveRoot);
      assert next == stack + head by {
        assert segs[0] != "..";
      }
      assert NoDotDot(segs[1..]);
      ResolveWithoutDotDot(next, segs[1..], allowAboveRoot);
      assert Names(segs) == head + Names(segs[1..]);
      AppendAssoc(stack, head, Names(segs[1..]));
    }
  }

  lemma {:induction false} NamesOfNames(segs: seq<string>)
    requires forall i :: 0 <= i < |segs| ==> IsName(segs[i])
    ensures Names(segs) == segs
  {
    if segs != [] {
      NamesOfNames(segs[1..]);
    }
  }

  /** How `normalize` writes a segment list back as a path. */
  function Render(stack: seq<string>, isAbsolute: bool, trailingSeparator: bool): string
  {
    if stack == [] then
      (if isAbsolute then "/" else if trailingSeparator then "./" else ".")
    else
      (if isAbsolute then "/" else "") + JoinSegs(stack) + (if trailingSeparator then "/" else "")
  }

  /** `path.posix.normalize(p)`. */
  function Normalize(p: string): string
  {
    if p == "" then "."
    else
      var isAbsolute := p[0] == '/';
      Render(Resolve([], Split(p), !isAbsolute), isAbsolute, p[|p| - 1] == '/')
  }

  /** `path.posix.join(a, b)`: empty arguments are skipped, the rest are
      joined with '/' and the result normalized. */
  function Join(a: string, b: string): string
  {
    if a == "" && b == "" then "."
    else if a == "" then Normalize(b)
    else if b == "" then Normalize(a)
    else Normalize(a + "/" + b)
  }

  lemma RenderEmptyDotDotsLead(isAbsolute: bool, trailingSeparator: bool)
    ensures DotDotsLead(Split(Render([], isAbsolute, trailingSeparator)))
  {
    assert "/"[1..] == "";
    assert Split("/") == ["", ""];
    SplitCons('.', "/");
    assert ['.'] + "/" == "./";
    SplitCons('.', "");
    assert ['.'] + "" == ".";
  }

  lemma SplitWithTrail(stack: seq<string>, trailingSeparator: bool)
    requires stack != [] && SlashFree(stack)
    ensures Split(JoinSegs(stack) + (if trailingSeparator then "/" else ""))
            == stack + (if trailingSeparator then [""] else [])
  {
    var body := JoinSegs(stack);
    SplitOfJoin(stack);
    if trailingSeparator {
      SplitAtSlash(body, "");
      assert body + "/" + "" == body + "/";
    } else {
      assert body + "" == body;
    }
  }

  lemma SplitAfterRoot(t: string)
    ensures Split("/" + t) == [""] + Split(t)
  {
    assert ("/" + t)[1..] == t;
  }

  lemma RenderSplit(stack: seq<string>, isAbsolute: bool, trailingSeparator: bool)
    requires stack != [] && SlashFree(stack)
    ensures Split(Render(stack, isAbsolute, trailingSeparator))
            == (if isAbsolute then [""] else []) + stack + (if trailingSeparator then [""] else [])
  {
    var trail := if trailingSeparator then "/" else "";
    var withTrail := JoinSegs(stack) + trail;
    var post: seq<string> := if trailingSeparator then [""] else [];
    assert Split(withTrail) == stack + post by {
      SplitWithTrail(stack, trailingSeparator);
    }
    if isAbsolute {
      assert Render(stack, isAbsolute, trailingSeparator) == "/" + withTrail by {
        AppendAssoc("/", JoinSegs(stack), trail);
      }
      SplitAfterRoot(withTrail);
      AppendAssoc([""], stack, post);
    } else {
      assert Render(stack, isAbsolute, trailingSeparator) == withTrail by {
        assert "" + JoinSegs(stack) == JoinSegs(stack);
      }
      assert [] + stack + post == stack + post;
    }
  }

  lemma AppendAssoc<T>(a: seq<T>, b: seq<T>, c: seq<T>)
    ensures a + b + c == a + (b + c)
  {
  }

  lemma NoDotDotAppend(a: seq<string>, b: seq<string>)
    requires NoDotDot(a) && NoDotDot(b)
    ensures NoDotDot(a + b)
  {
    forall j | 0 <= j < |a + b|
      ensures (a + b)[j] != ".."
    {
      if j < |a| {
        assert (a + b)[j] == a[j];
      } else {
        assert (a + b)[j] == b[j - |a|];
      }
    }
  }

  /** Segments without '..' after the stack keep the '..' in front. */
  lemma DotDotsLeadAppend(stack: seq<string>, post: seq<string>)
    requires DotDotsLead(stack) && NoDotDot(post)
    ensures DotDotsLead(stack + post)
  {
    var segs := stack + post;
    forall i, j | 0 <= i < j < |segs| && segs[j] == ".."
      ensures segs[i] == ".."
    {
      if j < |stack| {
        assert segs[j] == stack[j] && segs[i] == stack[i];
      } else {
        assert false;
      }
    }
  }

  lemma RenderDotDotsLead(stack: seq<string>, isAbsolute: bool, trailingSeparator: bool)
    requires Canonical(stack, !isAbsolute)
    ensures DotDotsLead(Split(Render(stack, isAbsolute, trailingSeparator)))
    ensures isAbsolute ==> NoDotDot(Split(Render(stack, isAbsolute, trailingSeparator)))
  {
    if stack == [] {
      RenderEmptyDotDotsLead(isAbsolute, trailingSeparator);
    } else {
      assert SlashFree(stack);
      RenderSplit(stack, isAbsolute, trailingSeparator);
      var post: seq<string> := if trailingSeparator then [""] else [];
      assert NoDotDot(post);
      if isAbsolute {
        assert NoDotDot([""] + stack + post) by {
          NoDotDotAppend([""], stack);
          NoDotDotAppend([""] + stack, post);
        }
      } else {
        assert [] + stack + post == stack + post;
        DotDotsLeadAppend(stack, post);
      }
    }
  }

  /** In a normalized path every '..' comes first (and an absolute one has
      none). */
  lemma NormalizedDotDotsLead(p: string)
    ensures DotDotsLead(Split(Normalize(p)))
    ensures p != "" && p[0] == '/' ==> NoDotDot(Split(Normalize(p)))
  {
    if p != "" {
      var isAbsolute := p[0] == '/';
      ResolveKeepsCanonical([], Split(p), !isAbsolute);
      RenderDotDotsLead(Resolve([], Split(p), !isAbsolute), isAbsolute, p[|p| - 1] == '/');
    }
  }

  /** A join of non-empty, slash-free segments neither starts nor ends
      with '/'. */
  lemma {:induction false} JoinSegsEnds(segs: seq<string>)
    requires segs != [] && forall i :: 0 <= i < |segs| ==> segs[i] != "" && '/' !in segs[i]
    ensures var j := JoinSegs(segs); j != "" && j[0] != '/' && j[|j| - 1] != '/'
    decreases |segs|
  {
    var first := segs[0];
    assert first[0] in first;
    if |segs| == 1 {
      assert first[|first| - 1] in first;
    } else {
      var rest := JoinSegs(segs[1..]);
      JoinSegsEnds(segs[1..]);
      assert segs == [first] + segs[1..];
      JoinSegsCons(first, segs[1..]);
      var j := first + "/" + rest;
      assert j[0] == first[0];
      assert j[|j| - 1] == rest[|rest| - 1];
    }
  }

  /** Resolving segments that already continue a canonical stack only
      appends them. */
  lemma {:induction false} ResolveCanonical(acc: seq<string>, segs: seq<string>, allowAboveRoot: bool)
    requires Canonical(acc + segs, allowAboveRoot)
    ensures Resolve(acc, segs, allowAboveRoot) == acc + segs
    decreases |segs|
  {
    if segs != [] {
      var all := acc + segs;
      var seg := segs[0];
      assert seg == all[|acc|];
      assert Step(acc, seg, allowAboveRoot) == acc + [seg] by {
        if seg == ".." && acc != [] {
          assert acc[|acc| - 1] == all[|acc| - 1];
        }
      }
      assert acc + [seg] + segs[1..] == all;
      ResolveCanonical(acc + [seg], segs[1..], allowAboveRoot);
    }
  }

  /** Normalizing a rendered non-empty canonical stack finds the stack again. */
  lemma ResolveRendered(stack: seq<string>, isAbsolute: bool, trailingSeparator: bool)
    requires stack != [] && Canonical(stack, !isAbsolute)
    ensures Resolve([], Split(Render(stack, isAbsolute, trailingSeparator)), !isAbsolute) == stack
  {
    var allow := !isAbsolute;
    var pre: seq<string> := if isAbsolute then [""] else [];
    var post: seq<string> := if trailingSeparator then [""] else [];
    assert Split(Render(stack, isAbsolute, trailingSeparator)) == pre + stack + post by {
      assert SlashFree(stack);
      RenderSplit(stack, isAbsolute, trailingSeparator);
    }
    assert Resolve([], pre, allow) == [];
    assert Resolve([], stack, allow) == stack by {
      assert [] + stack == stack;
      ResolveCanonical([], stack, allow);
    }
    assert Resolve([], pre + stack, allow) == stack by {
      ResolveAppend([], pre, stack, allow);
    }
    assert Resolve(stack, post, allow) == stack;
    ResolveAppend([], pre + stack, post, allow);
  }

  /** A rendered non-empty canonical stack starts with '/' exactly when it
      is absolute and ends with '/' exactly when the separator is kept. */
  lemma RenderedEnds(stack: seq<string>, isAbsolute: bool, trailingSeparator: bool)
    requires stack != [] && Canonical(stack, !isAbsolute)
    ensures var q := Render(stack, isAbsolute, trailingSeparator);
            && q != "" && (q[0] == '/' <==> isAbsolute)
            && (q[|q| - 1] == '/' <==> trailingSeparator)
  {
    var pre := if isAbsolute then "/" else "";
    var trail := if trailingSeparator then "/" else "";
    JoinSegsEnds(stack);
    assert Render(stack, isAbsolute, trailingSeparator) == pre + JoinSegs(stack) + trail;
    FramedEnds(pre, JoinSegs(stack), trail);
  }

  /** A body that neither starts nor ends with '/', framed by optional
      slashes, starts and ends with '/' exactly where a slash was added. */
  lemma FramedEnds(pre: string, body: string, trail: string)
    requires pre == "" || pre == "/"
    requires trail == "" || trail == "/"
    requires body != "" && body[0] != '/' && body[|body| - 1] != '/'
    ensures var q := pre + body + trail;
            && q != "" && (q[0] == '/' <==> pre == "/")
            && (q[|q| - 1] == '/' <==> trail == "/")
  {
  }

  /** The three renderings of an empty stack are fixed points. */
  lemma EmptyRenderFixed(isAbsolute: bool, trailingSeparator: bool)
    ensures Normalize(Render([], isAbsolute, trailingSeparator)) == Render([], isAbsolute, trailingSeparator)
  {
    assert "/"[1..] == "";
    assert Split("/") == ["", ""];
    if isAbsolute {
      assert Resolve([], ["", ""], false) == [];
    } else if trailingSeparator {
      SplitCons('.', "/");
      assert ['.'] + "/" == "./";
      assert ['.'] + Split("/")[0] == "." && Split("/")[1..] == [""];
      assert Split("./") == [".", ""];
      assert Resolve([], [".", ""], true) == [];
    } else {
      SplitCons('.', "");
      assert ['.'] + "" == ".";
      assert Split(".") == ["."];
      assert Resolve([], ["."], true) == [];
    }
  }

  /** `normalize` is idempotent: a normalized path normalizes to itself. */
  lemma NormalizeIdempotent(p: string)
    ensures Normalize(Normalize(p)) == Normalize(p)
  {
    if p == "" {
      EmptyRenderFixed(false, false);
    } else {
      var isAbsolute := p[0] == '/';
      var trail := p[|p| - 1] == '/';
      var stack := Resolve([], Split(p), !isAbsolute);
      assert Canonical(stack, !isAbsolute) by {
        ResolveKeepsCanonical([], Split(p), !isAbsolute);
      }
      if stack == [] {
        EmptyRenderFixed(isAbsolute, trail);
      } else {
        var q := Render(stack, isAbsolute, trail);
        assert q != "" && (q[0] == '/' <==> isAbsolute) && (q[|q| - 1] == '/' <==> trail) by {
          RenderedEnds(stack, isAbsolute, trail);
        }
        assert Resolve([], Split(q), !isAbsolute) == stack by {
          ResolveRendered(stack, isAbsolute, trail);
        }
      }
    }
  }

  lemma NormalizeAbsolute(p: string, stack: seq<string>)
    requires p != "" && p[0] == '/'
    requires Resolve([], Split(p), false) == stack && stack != []
    ensures Normalize(p) == "/" + JoinSegs(stack) + (if p[|p| - 1] == '/' then "/" else "")
  {
  }

  lemma Regroup(w: string, x: string, y: string, z: string)
    ensures w + (x + y + z) == (w + x) + (y + z)
  {
  }

  /** An absolute directory given by its names. */
  function AbsoluteDir(names: seq<string>): string
  {
    "/" + JoinSegs(names)
  }

  lemma LastOfJoin(names: seq<string>)
    requires |names| > 0 && forall i :: 0 <= i < |names| ==> IsName(names[i])
    ensures JoinSegs(names) != "" && JoinSegs(names)[|JoinSegs(names)| - 1] != '/'
    decreases |names|
  {
    if |names| > 1 {
      JoinSegsCons(names[0], names[1..]);
      assert names == [names[0]] + names[1..];
      LastOfJoin(names[1..]);
    }
  }

  /** What normalizing sees of such a directory: a root and its names. */
  lemma AbsoluteDirShape(names: seq<string>)
    requires |names| > 0 && forall i :: 0 <= i < |names| ==> IsName(names[i])
    ensures var dir := AbsoluteDir(names);
            && |dir| > 1 && dir[0] == '/' && dir[|dir| - 1] != '/'
            && Split(dir) == [""] + names
            && Resolve([], Split(dir), false) == names
  {
    var dir := AbsoluteDir(names);
    var body := JoinSegs(names);
    SplitOfJoin(names);
    SplitAtSlash("", body);
    assert "" + "/" + body == dir;
    LastOfJoin(names);
    NamesOfNames(names);
    ResolveWithoutDotDot([], names, false);
    assert ([""] + names)[1..] == names;
  }

  /** Whether a path ends with a separator, which `normalize` keeps. */
  predicate EndsWithSlash(s: string)
  {
    s != "" && s[|s| - 1] == '/'
  }

  /** Joining an absolute, normalized directory with a path that has no
      '..' segment stays inside the directory: the result is the directory
      itself or extends it after a '/'. */
  lemma JoinStaysUnder(names: seq<string>, s: string)
    requires |names| > 0 && forall i :: 0 <= i < |names| ==> IsName(names[i])
    requires NoDotDot(Split(s))
    ensures var dir := AbsoluteDir(names);
            var rest := Names(Split(s));
            Join(dir, s) == dir + (if rest == [] then "" else "/" + JoinSegs(rest))
                                + (if EndsWithSlash(s) then "/" else "")
  {
    if s == "" {
      JoinEmptyUnder(names, s);
    } else {
      JoinNonEmptyUnder(names, s);
    }
  }

  lemma JoinEmptyUnder(names: seq<string>, s: string)
    requires |names| > 0 && forall i :: 0 <= i < |names| ==> IsName(names[i])
    requires s == ""
    ensures var dir := AbsoluteDir(names);
            var rest := Names(Split(s));
            Join(dir, s) == dir + (if rest == [] then "" else "/" + JoinSegs(rest))
                                + (if EndsWithSlash(s) then "/" else "")
  {
    var dir := AbsoluteDir(names);
    assert Normalize(dir) == dir by {
      AbsoluteDirShape(names);
      NormalizeAbsolute(dir, names);
    }
    assert Names(Split(s)) == [] by {
      assert Split("") == [""];
      assert [""][1..] == [];
    }
    assert dir + "" + "" == dir;
  }

  lemma ResolveUnderDir(names: seq<string>, s: string)
    requires |names| > 0 && forall i :: 0 <= i < |names| ==> IsName(names[i])
    requires NoDotDot(Split(s))
    ensures Resolve([], Split(AbsoluteDir(names) + "/" + s), false) == names + Names(Split(s))
  {
    var dir := AbsoluteDir(names);
    AbsoluteDirShape(names);
    SplitAtSlash(dir, s);
    ResolveAppend([], Split(dir), Split(s), false);
    ResolveWithoutDotDot(names, Split(s), false);
  }

  lemma WriteUnderDir(names: seq<string>, rest: seq<string>, tail: string)
    requires names != []
    ensures "/" + JoinSegs(names + rest) + tail
            == AbsoluteDir(names) + (if rest == [] then "" else "/" + JoinSegs(rest)) + tail
  {
    if rest != [] {
      var j, k := JoinSegs(names), JoinSegs(rest);
      JoinSegsAppend(names, rest);
      Regroup("/", j, "/", k);
    } else {
      assert names + rest == names;
    }
  }

  lemma JoinNonEmptyUnder(names: seq<string>, s: string)
    requires |names| > 0 && forall i :: 0 <= i < |names| ==> IsName(names[i])
    requires NoDotDot(Split(s)) && s != ""
    ensures var dir := AbsoluteDir(names);
            var rest := Names(Split(s));
            Join(dir, s) == dir + (if rest == [] then "" else "/" + JoinSegs(rest))
                                + (if EndsWithSlash(s) then "/" else "")
  {
    var dir := AbsoluteDir(names);
    var rest := Names(Split(s));
    var p := dir + "/" + s;
    ResolveUnderDir(names, s);
    assert p[0] == '/' && p[|p| - 1] == s[|s| - 1];
    NormalizeAbsolute(p, names + rest);
    WriteUnderDir(names, rest, if s[|s| - 1] == '/' then "/" else "");
  }

  /** `path.join(dir, name)` for an absolute normal directory and one name
      appends the name after a '/'. */
  lemma JoinOneName(names: seq<string>, name: string)
    requires |names| > 0 && forall i :: 0 <= i < |names| ==> IsName(names[i])
    requires IsName(name)
    ensures Join(AbsoluteDir(names), name) == AbsoluteDir(names) + "/" + name
  {
    assert Split(name) == [name] by {
      SplitWithoutSlash(name);
    }
    assert Names([name]) == [name] by {
      assert [name][1..] == [];
    }
    assert name[|name| - 1] != '/' by {
      assert name[|name| - 1] in name;
    }
    assert JoinSegs([name]) == name;
    JoinStaysUnder(names, name);
  }

  /** `path.join('/', name)` is '/' followed by the name. */
  lemma JoinAtRoot(name: string)
    requires IsName(name)
    ensures Join("/", name) == "/" + name
  {
    var p := "/" + "/" + name;
    assert Join("/", name) == Normalize(p);
    assert p[|p| - 1] != '/' by {
      assert p[|p| - 1] == name[|name| - 1];
      assert name[|name| - 1] in name;
    }
    var segs := ["", ""] + [name];
    assert Split(p) == segs by {
      SplitAtSlash("/", name);
      assert "/"[1..] == "";
      SplitWithoutSlash(name);
    }
    assert Resolve([], segs, false) == [name] by {
      assert segs[0] == "" && segs[1..] == ["", name];
      assert ["", name][1..] == [name] && [name][1..] == [];
      assert Resolve([], segs, false) == Resolve([], ["", name], false);
      assert Resolve([], ["", name], false) == Resolve([], [name], false);
      assert Resolve([], [name], false) == Resolve(Step([], name, false), [], false);
      assert Step([], name, false) == [name];
    }
    assert Render([name], true, false) == "/" + name;
  }

  /** Joining an absolute normal directory with another absolute normal
      path, given by its names, re-roots the path under the directory. */
  lemma JoinAbsoluteUnder(dirNames: seq<string>, names: seq<string>)
    requires |dirNames| > 0 && forall i :: 0 <= i < |dirNames| ==> IsName(dirNames[i])
    requires |names| > 0 && forall i :: 0 <= i < |names| ==> IsName(names[i])
    requires NoDotDot(Split(AbsoluteDir(names))) && Names(Split(AbsoluteDir(names))) == names
    ensures Join(AbsoluteDir(dirNames), AbsoluteDir(names)) == AbsoluteDir(dirNames) + AbsoluteDir(names)
  {
    var dir := AbsoluteDir(dirNames);
    var req := AbsoluteDir(names);
    assert !EndsWithSlash(req) by {
      AbsoluteDirShape(names);
    }
    JoinStaysUnder(dirNames, req);
    assert dir + ("/" + JoinSegs(names)) + "" == dir + req;
  }

  /** `path.join(dir, name)` for an absolute normal directory, the root
      included, is the directory with one more name. */
  lemma JoinChild(names: seq<string>, name: string)
    requires forall i :: 0 <= i < |names| ==> IsName(names[i])
    requires IsName(name)
    ensures Join(AbsoluteDir(names), name) == AbsoluteDir(names + [name])
  {
    if names == [] {
      JoinChildOfRoot(name);
      assert names + [name] == [name];
    } else {
      JoinChildOfDir(names, name);
    }
  }

  lemma JoinChildOfRoot(name: string)
    requires IsName(name)
    ensures Join(AbsoluteDir([]), name) == AbsoluteDir([name])
  {
    assert AbsoluteDir([]) == "/" by {
      assert JoinSegs([]) == "";
      assert "/" + "" == "/";
    }
    JoinAtRoot(name);
    assert JoinSegs([name]) == name;
  }

  lemma JoinChildOfDir(names: seq<string>, name: string)
    requires |names| > 0 && forall i :: 0 <= i < |names| ==> IsName(names[i])
    requires IsName(name)
    ensures Join(AbsoluteDir(names), name) == AbsoluteDir(names + [name])
  {
    JoinOneName(names, name);
    AbsoluteDirSnoc(names, name);
  }

  lemma AbsoluteDirSnoc(names: seq<string>, name: string)
    requires names != []
    ensures AbsoluteDir(names + [name]) == AbsoluteDir(names) + "/" + name
  {
    JoinSegsAppend(names, [name]);
    assert JoinSegs([name]) == name;
    assert "/" + (JoinSegs(names) + "/" + name) == "/" + JoinSegs(names) + "/" + name;
  }
}
