/** `getFilePath` (server/server.js:21-30): normalize the requested path,
    strip its leading '..' segments with a regular expression, join it to
    FILES_DIR and accept the result only if it starts with FILES_DIR. */
module FilePath {
  import opened Common
  import opened PosixPath

  /** FILES_DIR (server/server.js:12): `path.join(__dirname, 'files')`,
      where __dirname is absolute and normalized, given by its names. */
  function FilesDir(dirname: seq<string>): string
  {
    AbsoluteDir(dirname + ["files"])
  }

  /** FilesDir is the join of __dirname and 'files'. */
  lemma FilesDirIsJoin(dirname: seq<string>)
    requires ValidDirname(dirname)
    ensures FilesDir(dirname) == Join(AbsoluteDir(dirname), "files")
  {
    JoinChild(dirname, "files");
  }

  predicate ValidDirname(dirname: seq<string>)
  {
    forall i :: 0 <= i < |dirname| ==> IsName(dirname[i])
  }

  /** FILES_DIR's names are all plain names. */
  lemma FilesDirIsNames(dirname: seq<string>)
    requires ValidDirname(dirname)
    ensures var names := dirname + ["files"];
            |names| > 0 && forall i :: 0 <= i < |names| ==> IsName(names[i])
  {
    var names := dirname + ["files"];
    assert IsName("files");
    forall i | 0 <= i < |names|
      ensures IsName(names[i])
    {
      if i < |dirname| {
        assert names[i] == dirname[i];
      }
    }
  }

  /** One match of the group `\.\.(\/|\\|$)`: two dots followed by a '/',
      a '\' or the end of the string. */
  predicate StartsWithDotDotSegment(s: string)
  {
    |s| >= 2 && s[0] == '.' && s[1] == '.' && (|s| == 2 || s[2] == '/' || s[2] == '\\')
  }

  /** `s.replace(/^(\.\.(\/|\\|$))+/, '')`: the anchored group is matched as
      often as possible and the match removed. The result is a suffix of
      `s` that does not itself start with such a segment. */
  function StripLeadingDotDots(s: string): (r: string)
    ensures |r| <= |s| && r == s[|s| - |r|..]
    ensures !StartsWithDotDotSegment(r)
  {
    if StartsWithDotDotSegment(s) then
      var k := if |s| == 2 then 2 else 3;
      var r := StripLeadingDotDots(s[k..]);
      assert s[k..][|s[k..]| - |r|..] == s[|s| - |r|..];
      r
    else s
  }

  /** `s` is a run of matches of the group: each a '..' followed by '/' or
      '\', and, when `atEnd` (nothing follows the run), possibly a last
      bare '..' matched by `$`. */
  predicate DotDotRun(s: string, atEnd: bool)
    decreases |s|
  {
    if s == "" then true
    else if |s| < 3 then atEnd && StartsWithDotDotSegment(s)
    else StartsWithDotDotSegment(s) && DotDotRun(s[3..], atEnd)
  }

  /** What the replacement removes is exactly the longest run of matches
      at the start: the dropped prefix is such a run (a bare '..' only
      when nothing is left), and the rest does not start another match. */
  lemma {:induction false} StripLeadingDotDotsShape(s: string)
    ensures var r := StripLeadingDotDots(s);
            DotDotRun(s[..|s| - |r|], r == "")
    decreases |s|
  {
    if !StartsWithDotDotSegment(s) {
      StripShapeNoMatch(s);
    } else if |s| == 2 {
      StripShapeBare(s);
    } else {
      StripLeadingDotDotsShape(s[3..]);
      StripSkipsSegment(s);
      RunWithResult(s, StripLeadingDotDots(s));
    }
  }

  /** Without a leading match nothing is dropped. */
  lemma StripShapeNoMatch(s: string)
    requires !StartsWithDotDotSegment(s)
    ensures var r := StripLeadingDotDots(s);
            DotDotRun(s[..|s| - |r|], r == "")
  {
    assert StripLeadingDotDots(s) == s;
    assert s[..0] == "";
  }

  /** A bare '..' is dropped whole, by the `$` alternative. */
  lemma StripShapeBare(s: string)
    requires StartsWithDotDotSegment(s) && |s| == 2
    ensures var r := StripLeadingDotDots(s);
            DotDotRun(s[..|s| - |r|], r == "")
  {
    assert StripLeadingDotDots(s) == "" by {
      assert s[2..] == "";
    }
    assert s[..|s|] == s;
  }

  /** The run left of some rest `r` of `s[3..]` extends by the leading group. */
  lemma RunWithResult(s: string, r: string)
    requires |s| >= 3 && StartsWithDotDotSegment(s)
    requires var t := s[3..]; |r| <= |t| && DotDotRun(t[..|t| - |r|], r == "")
    ensures DotDotRun(s[..|s| - |r|], r == "")
  {
    DroppedRunExtends(s, s[3..], |r|, r == "");
  }

  /** A run after a leading group, with that group in front, is a run. */
  lemma DroppedRunExtends(s: string, t: string, kept: nat, atEnd: bool)
    requires |s| >= 3 && StartsWithDotDotSegment(s) && t == s[3..] && kept <= |t|
    requires DotDotRun(t[..|t| - kept], atEnd)
    ensures DotDotRun(s[..|s| - kept], atEnd)
  {
    var dropped := s[..|s| - kept];
    assert dropped[3..] == t[..|t| - kept];
    assert StartsWithDotDotSegment(dropped) by {
      assert dropped[0] == s[0] && dropped[1] == s[1] && dropped[2] == s[2];
    }
  }

  /** `getFilePath(requestedPath)`; `None` stands for `null`. Whatever it
      returns starts with FILES_DIR as a literal string. */
  function GetFilePath(filesDir: string, requestedPath: string): (r: Option<string>)
    ensures r.Some? ==> filesDir <= r.value
  {
    var safePath := StripLeadingDotDots(Normalize(requestedPath));
    var fullPath := Join(filesDir, safePath);
    if filesDir <= fullPath then Some(fullPath) else None
  }

  /** One matched segment of three characters is removed. */
  lemma StripSkipsSegment(t: string)
    requires |t| >= 3 && StartsWithDotDotSegment(t)
    ensures StripLeadingDotDots(t) == StripLeadingDotDots(t[3..])
  {
  }

  /** A leading "../" is a segment '..' of its own. */
  lemma SplitDotDotSlash(t: string)
    requires |t| >= 3 && t[0] == '.' && t[1] == '.' && t[2] == '/'
    ensures Split(t) == [".."] + Split(t[3..])
  {
    var u := t[3..];
    assert Split("..") == [".."] by {
      SplitWithoutSlash("..");
    }
    assert Split(t) == Split("..") + Split(u) by {
      assert t[..3] == ".." + "/";
      assert t == t[..3] + u;
      SplitAtSlash("..", u);
    }
  }

  /** A leading "..\" belongs to the first segment, which is then not '..'. */
  lemma SplitDotDotBackslash(t: string)
    requires |t| >= 3 && t[0] == '.' && t[1] == '.' && t[2] == '\\'
    ensures Split(t)[0] == "..\\" + Split(t[3..])[0]
    ensures Split(t)[1..] == Split(t[3..])[1..]
  {
    var u := t[3..];
    assert t == ['.'] + (['.'] + (['\\'] + u));
    SplitCons('\\', u);
    SplitCons('.', ['\\'] + u);
    SplitCons('.', ['.'] + (['\\'] + u));
  }

  /** In a path whose '..' segments all come first, the regular expression
      removes every '..' segment (it also eats into a first segment that
      begins with '..\', which is never a '..' on POSIX). */
  lemma {:induction false} StripRemovesDotDots(t: string)
    requires DotDotsLead(Split(t))
    ensures NoDotDot(Split(StripLeadingDotDots(t)))
    decreases |t|
  {
    if !StartsWithDotDotSegment(t) {
      assert NoDotDot(Split(t)) by {
        SplitHead(t);
        assert Split(t)[0] != "..";
      }
    } else if |t| == 2 {
      assert t[2..] == "";
      assert Split("") == [""];
    } else if t[2] == '/' {
      var u := t[3..];
      assert DotDotsLead(Split(u)) by {
        SplitDotDotSlash(t);
        assert Split(u) == Split(t)[1..];
      }
      StripRemovesDotDots(u);
      assert StripLeadingDotDots(t) == StripLeadingDotDots(u) by {
        StripSkipsSegment(t);
      }
    } else {
      var u := t[3..];
      assert DotDotsLead(Split(u)) by {
        var segs := Split(t);
        SplitDotDotBackslash(t);
        assert segs[0] != "..";
        assert forall j :: 1 <= j < |Split(u)| ==> Split(u)[j] == segs[j];
      }
      StripRemovesDotDots(u);
      assert StripLeadingDotDots(t) == StripLeadingDotDots(u) by {
        StripSkipsSegment(t);
      }
    }
  }

  /** The path that `getFilePath` joins to FILES_DIR has no '..' segment. */
  lemma SafePathHasNoDotDot(requestedPath: string)
    ensures NoDotDot(Split(StripLeadingDotDots(Normalize(requestedPath))))
  {
    NormalizedDotDotsLead(requestedPath);
    StripRemovesDotDots(Normalize(requestedPath));
  }

  /** Traversal is clamped, never rejected: for the FILES_DIR the server
      builds, `getFilePath` never returns null, and its result is FILES_DIR
      itself or continues it after a '/', so textual prefixes such as
      "files2" cannot be reached either. */
  lemma GetFilePathClamps(dirname: seq<string>, requestedPath: string)
    requires ValidDirname(dirname)
    ensures var filesDir := FilesDir(dirname);
            var r := GetFilePath(filesDir, requestedPath);
            && r.Some?
            && r.value == Join(filesDir, StripLeadingDotDots(Normalize(requestedPath)))
            && (r.value == filesDir || (|r.value| > |filesDir| && r.value[|filesDir|] == '/'))
  {
    var filesDir := FilesDir(dirname);
    var safePath := StripLeadingDotDots(Normalize(requestedPath));
    var rest := Names(Split(safePath));
    var middle := if rest == [] then "" else "/" + JoinSegs(rest);
    var trailer := if EndsWithSlash(safePath) then "/" else "";
    assert Join(filesDir, safePath) == filesDir + middle + trailer by {
      FilesDirIsNames(dirname);
      SafePathHasNoDotDot(requestedPath);
      JoinStaysUnder(dirname + ["files"], safePath);
    }
    ExtendsAfterSeparator(filesDir, middle, trailer, '/');
  }

  /** Appending pieces that each start with the separator gives the
      original or continues it after a separator. */
  lemma ExtendsAfterSeparator<T>(dir: seq<T>, a: seq<T>, b: seq<T>, sep: T)
    requires (a == [] || a[0] == sep) && (b == [] || b[0] == sep)
    ensures var v := dir + a + b;
            && dir <= v
            && (v == dir || (|v| > |dir| && v[|dir|] == sep))
  {
    var v := dir + a + b;
    assert v[..|dir|] == dir;
    if a == [] && b == [] {
      assert v == dir;
    } else if a != [] {
      assert v[|dir|] == a[0];
    } else {
      assert v[|dir|] == b[0];
    }
  }

  /** A single name below FILES_DIR. */
  lemma JoinName(dirname: seq<string>, name: string)
    requires ValidDirname(dirname) && IsName(name)
    ensures Join(FilesDir(dirname), name) == FilesDir(dirname) + "/" + name
  {
    var names := dirname + ["files"];
    FilesDirIsNames(dirname);
    JoinOneName(names, name);
  }

  lemma SplitDotDotEscape(x: string)
    requires IsName(x)
    ensures Split("../../" + x) == ["..", "..", x]
  {
    var t := "../../" + x;
    assert t[3..] == "../" + x;
    assert ("../" + x)[3..] == x;
    SplitDotDotSlash(t);
    SplitDotDotSlash("../" + x);
    SplitWithoutSlash(x);
  }

  lemma ResolveDotDotEscape(x: string)
    requires IsName(x)
    ensures Resolve([], ["..", "..", x], true) == ["..", "..", x]
  {
    assert ["..", "..", x][1..] == ["..", x] && ["..", x][1..] == [x] && [x][1..] == [];
    assert Step([], "..", true) == [".."];
    assert Step([".."], "..", true) == ["..", ".."];
    assert Step(["..", ".."], x, true) == ["..", "..", x];
    assert Resolve(["..", "..", x], [], true) == ["..", "..", x];
    assert Resolve(["..", ".."], [x], true) == ["..", "..", x];
    assert Resolve([".."], ["..", x], true) == ["..", "..", x];
  }

  lemma JoinSegsDotDotEscape(x: string)
    ensures JoinSegs(["..", "..", x]) == "../../" + x
  {
    JoinSegsCons("..", ["..", x]);
    JoinSegsCons("..", [x]);
    assert [x][1..] == [];
  }

  /** "../../x" stays as it is under normalization: a relative path may
      climb above its starting point. */
  lemma NormalizeDotDotEscape(x: string)
    requires IsName(x)
    ensures Normalize("../../" + x) == "../../" + x
  {
    var p := "../../" + x;
    var stack := ["..", "..", x];
    assert Resolve([], Split(p), true) == stack by {
      SplitDotDotEscape(x);
      ResolveDotDotEscape(x);
    }
    assert Render(stack, false, false) == p by {
      JoinSegsDotDotEscape(x);
    }
    assert p[0] == '.' && p[|p| - 1] == x[|x| - 1] != '/' by {
      assert x[|x| - 1] in x;
    }
  }

  /** The regular expression strips both leading '..' segments. */
  lemma StripDotDotEscape(x: string)
    requires !StartsWithDotDotSegment(x)
    ensures StripLeadingDotDots("../../" + x) == x
  {
    var t := "../../" + x;
    assert t[3..] == "../" + x;
    assert ("../" + x)[3..] == x;
    StripSkipsSegment(t);
    StripSkipsSegment("../" + x);
  }

  /** "../../x" resolves to FILES_DIR/x. */
  lemma DotDotEscapeIsClamped(dirname: seq<string>, x: string)
    requires ValidDirname(dirname) && IsName(x) && !StartsWithDotDotSegment(x)
    ensures GetFilePath(FilesDir(dirname), "../../" + x) == Some(FilesDir(dirname) + "/" + x)
  {
    var p := "../../" + x;
    assert StripLeadingDotDots(Normalize(p)) == x by {
      NormalizeDotDotEscape(x);
      StripDotDotEscape(x);
    }
    GetFilePathClamps(dirname, p);
    JoinName(dirname, x);
  }

  /** A request that normalization and stripping leave alone is joined as
      it is. */
  lemma GetFilePathOfClean(dirname: seq<string>, req: string)
    requires ValidDirname(dirname)
    requires StripLeadingDotDots(Normalize(req)) == req
    ensures GetFilePath(FilesDir(dirname), req) == Some(Join(FilesDir(dirname), req))
  {
    GetFilePathClamps(dirname, req);
  }

  /** An absolute normal path is left alone by normalization and stripping. */
  lemma AbsoluteDirIsClean(names: seq<string>)
    requires |names| > 0 && forall i :: 0 <= i < |names| ==> IsName(names[i])
    ensures StripLeadingDotDots(Normalize(AbsoluteDir(names))) == AbsoluteDir(names)
  {
    AbsoluteDirShape(names);
    NormalizeAbsolute(AbsoluteDir(names), names);
  }

  /** The segments of an absolute normal path are exactly its names. */
  lemma AbsoluteDirNames(names: seq<string>)
    requires |names| > 0 && forall i :: 0 <= i < |names| ==> IsName(names[i])
    ensures NoDotDot(Split(AbsoluteDir(names)))
    ensures Names(Split(AbsoluteDir(names))) == names
  {
    var segs := [""] + names;
    assert Split(AbsoluteDir(names)) == segs by {
      AbsoluteDirShape(names);
    }
    assert Names(segs) == Names(names) by {
      assert segs[1..] == names;
    }
    NamesOfNames(names);
  }

  /** Joining an absolute normal path to FILES_DIR appends it. */
  lemma JoinAbsoluteDir(dirname: seq<string>, names: seq<string>)
    requires ValidDirname(dirname)
    requires |names| > 0 && forall i :: 0 <= i < |names| ==> IsName(names[i])
    ensures Join(FilesDir(dirname), AbsoluteDir(names)) == FilesDir(dirname) + AbsoluteDir(names)
  {
    FilesDirIsNames(dirname);
    AbsoluteDirNames(names);
    JoinAbsoluteUnder(dirname + ["files"], names);
  }

  /** An absolute request is not refused either: it is re-rooted under
      FILES_DIR. */
  lemma AbsoluteRequestIsReRooted(dirname: seq<string>, names: seq<string>)
    requires ValidDirname(dirname)
    requires |names| > 0 && forall i :: 0 <= i < |names| ==> IsName(names[i])
    ensures GetFilePath(FilesDir(dirname), AbsoluteDir(names))
            == Some(FilesDir(dirname) + AbsoluteDir(names))
  {
    AbsoluteDirIsClean(names);
    GetFilePathOfClean(dirname, AbsoluteDir(names));
    JoinAbsoluteDir(dirname, names);
  }

  /** "/etc/passwd" resolves to FILES_DIR/etc/passwd. */
  lemma AbsoluteRequestIsClamped(dirname: seq<string>)
    requires ValidDirname(dirname)
    ensures GetFilePath(FilesDir(dirname), "/etc/passwd") == Some(FilesDir(dirname) + "/etc/passwd")
  {
    assert AbsoluteDir(["etc", "passwd"]) == "/etc/passwd" by {
      JoinSegsCons("etc", ["passwd"]);
    }
    AbsoluteRequestIsReRooted(dirname, ["etc", "passwd"]);
  }

  /** An empty request names FILES_DIR itself: `normalize('')` is '.', which
      the regular expression leaves alone, and joining '.' adds nothing. */
  lemma BlankRequestIsFilesDir(dirname: seq<string>)
    requires ValidDirname(dirname)
    ensures GetFilePath(FilesDir(dirname), "") == Some(FilesDir(dirname))
  {
    BlankRequestIsDot(dirname);
    JoinDotIsFilesDir(dirname);
  }

  /** `normalize('')` is '.', which the regular expression leaves alone. */
  lemma BlankRequestIsDot(dirname: seq<string>)
    requires ValidDirname(dirname)
    ensures GetFilePath(FilesDir(dirname), "") == Some(Join(FilesDir(dirname), "."))
  {
    assert StripLeadingDotDots(Normalize("")) == ".";
    GetFilePathClamps(dirname, "");
  }

  /** Joining '.' to FILES_DIR adds nothing. */
  lemma JoinDotIsFilesDir(dirname: seq<string>)
    requires ValidDirname(dirname)
    ensures Join(FilesDir(dirname), ".") == FilesDir(dirname)
  {
    var names := dirname + ["files"];
    assert Names(Split(".")) == [] by {
      SplitWithoutSlash(".");
      assert ["."][1..] == [];
    }
    assert NoDotDot(Split("."));
    FilesDirIsNames(dirname);
    JoinStaysUnder(names, ".");
    assert !EndsWithSlash(".");
    assert FilesDir(dirname) + "" + "" == FilesDir(dirname);
  }
}
