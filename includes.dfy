/** The world outside the interpreter, and the pure half of the include subsystem: the module
    search list parsed from its specification string, and the first-match resolution of an
    include path against the current base directory, then the module search paths, then the
    process's working directory. */
module Includes {
  import opened Values
  import opened Text
  import Syntax

  /** A path, written with `/` separators. */
  type Path = string

  /** The outcome of `fs::read_to_string`. */
  datatype FileRead = Contents(text: string) | ReadError(reason: string)

  /** Everything the interpreter consults but does not define: value.rs, the filesystem,
      the working directory and environment, the parser, standard input, the shell, the
      regex engine and case folding. None of it is given behaviour here. */
  datatype Host = Host(
    ops: ValueOps,
    fileExists: Path -> bool,
    canonicalize: Path -> Option<Path>,
    readFile: Path -> FileRead,
    currentDir: Option<Path>,
    modulesPathVar: Option<string>,
    parse: string -> seq<Syntax.Stmt>,
    input: string,
    shell: string -> Option<string>,
    regexError: string -> Option<string>,
    regexIsMatch: (string, string) -> bool,
    regexReplace: (string, string, string, bool) -> string,
    lowercase: string -> string,
    uppercase: string -> string)

  /** `p.canonicalize().unwrap_or(p)`. */
  function Canon(host: Host, p: Path): Path {
    match host.canonicalize(p)
    case Some(c) => c
    case None => p
  }

  /** `Path::is_absolute` for Unix paths. */
  predicate IsAbsolute(p: Path) {
    p != [] && p[0] == '/'
  }

  /** `Path::join`: an absolute `rel` replaces `base`; otherwise one `/` goes between them. */
  function Join(base: Path, rel: Path): Path {
    if IsAbsolute(rel) then rel
    else if base == [] || base[|base| - 1] == '/' then base + rel
    else base + "/" + rel
  }

  /** Joining a relative path keeps the base as a prefix and the relative path as a suffix. */
  lemma JoinKeepsBoth(base: Path, rel: Path)
    requires !IsAbsolute(rel)
    ensures var r := Join(base, rel);
            |r| >= |base| + |rel| && r[..|base|] == base && r[|r| - |rel|..] == rel
  {
    var r := Join(base, rel);
    if base == [] || base[|base| - 1] == '/' {
      assert r == base + rel;
    } else {
      assert r == base + "/" + rel;
    }
  }

  /** The position of the last `/` in `p`, or `|p|` when there is none. */
  function LastSlash(p: Path): (i: nat)
    ensures i <= |p|
    ensures i < |p| ==> p[i] == '/'
    ensures forall j :: i < j < |p| ==> p[j] != '/'
    ensures i == |p| ==> forall j :: 0 <= j < |p| ==> p[j] != '/'
  {
    if p == [] then 0
    else if p[|p| - 1] == '/' then |p| - 1
    else
      var i := LastSlash(p[..|p| - 1]);
      if i == |p| - 1 then |p| else i
  }

  /** `Path::parent`: none for the empty path and the root, the empty path for a bare file
      name, the root for a file directly under it, otherwise the text before the last `/`. */
  function Parent(p: Path): (r: Option<Path>)
    ensures r.None? <==> p == [] || p == "/"
    ensures r.Some? ==> |r.value| < |p|
    ensures r.Some? && r.value != [] && r.value != "/" ==>
              p[..|r.value|] == r.value && p[|r.value|] == '/' && forall j :: |r.value| < j < |p| ==> p[j] != '/'
  {
    if p == [] || p == "/" then None
    else
      var i := LastSlash(p);
      if i == |p| then Some([])
      else if i == 0 then Some("/")
      else Some(p[..i])
  }

  /** The parent of a bare file name is the empty path, of a file under the root the root,
      and of `dir/name` the directory `dir`. */
  lemma ParentOfChild(dir: Path, name: Path)
    requires name != [] && forall j :: 0 <= j < |name| ==> name[j] != '/'
    ensures Parent(name) == Some([])
    ensures Parent("/" + name) == Some("/")
    ensures dir != [] && dir[|dir| - 1] != '/' ==> Parent(dir + "/" + name) == Some(dir)
  {
    assert LastSlash(name) == |name|;
    var q := "/" + name;
    assert q[0] == '/' && forall j :: 0 < j < |q| ==> q[j] == name[j - 1];
    assert LastSlash(q) == 0;
    if dir != [] && dir[|dir| - 1] != '/' {
      var p := dir + "/" + name;
      assert p[|dir|] == '/';
      assert forall j :: |dir| < j < |p| ==> p[j] == name[j - |dir| - 1];
      assert LastSlash(p) == |dir|;
      assert p[..|dir|] == dir;
    }
  }

  // ---------------------------------------------------------------------------------
  // parse_modules_path_list

  /** `spec.replace(';', ":")`. */
  function NormalizeSeparators(spec: string): (r: string)
    ensures |r| == |spec|
    ensures forall i :: 0 <= i < |r| ==> r[i] != ';'
    ensures forall i :: 0 <= i < |r| ==> r[i] == (if spec[i] == ';' then ':' else spec[i])
  {
    seq(|spec|, i requires 0 <= i < |spec| => if spec[i] == ';' then ':' else spec[i])
  }

  /** Segments joined back together with `:` between them. */
  function JoinColons(segments: seq<string>): string
    requires segments != []
  {
    if |segments| == 1 then segments[0] else segments[0] + ":" + JoinColons(segments[1..])
  }

  /** `str::split(':')`: the maximal colon-free pieces, including empty ones. */
  function SplitColons(s: string): (r: seq<string>)
    ensures r != []
    ensures forall k, i :: 0 <= k < |r| && 0 <= i < |r[k]| ==> r[k][i] != ':'
  {
    if s == [] then [[]]
    else
      var rest := SplitColons(s[1..]);
      if s[0] == ':' then [[]] + rest
      else
        var r := [[s[0]] + rest[0]] + rest[1..];
        assert forall i :: 0 <= i < |r[0]| ==> r[0][i] != ':' by {
          forall i | 0 <= i < |r[0]| ensures r[0][i] != ':' {
            if i > 0 { assert r[0][i] == rest[0][i - 1]; }
          }
        }
        r
  }

  /** Splitting and joining back with `:` gives the input. */
  lemma {:induction false} SplitColonsJoin(s: string)
    ensures JoinColons(SplitColons(s)) == s
  {
    if s != [] {
      var rest := SplitColons(s[1..]);
      SplitColonsJoin(s[1..]);
      if s[0] == ':' {
        assert SplitColons(s) == [[]] + rest;
        assert JoinColons([[]] + rest) == ":" + JoinColons(rest) by {
          assert ([[]] + rest)[1..] == rest;
        }
      } else {
        var r := [[s[0]] + rest[0]] + rest[1..];
        assert SplitColons(s) == r;
        assert JoinColons(r) == [s[0]] + JoinColons(rest) by {
          if |rest| > 1 {
            assert r[1..] == rest[1..];
            assert JoinColons(rest) == rest[0] + ":" + JoinColons(rest[1..]);
          }
        }
      }
      assert s == [s[0]] + s[1..];
    }
  }

  /** Splitting distributes over a colon: `split(a + ":" + b) == split(a) + split(b)`. */
  lemma {:induction false} SplitColonsAppend(a: string, b: string)
    ensures SplitColons(a + ":" + b) == SplitColons(a) + SplitColons(b)
  {
    var s := a + ":" + b;
    if a == [] {
      assert s == [':'] + b;
      assert s[1..] == b;
      assert SplitColons(s) == [[]] + SplitColons(b);
    } else {
      assert s[0] == a[0];
      assert s[1..] == a[1..] + ":" + b;
      SplitColonsAppend(a[1..], b);
      var rest := SplitColons(s[1..]);
      var restA := SplitColons(a[1..]);
      assert rest == restA + SplitColons(b);
      if a[0] == ':' {
        assert SplitColons(s) == [[]] + rest;
        assert SplitColons(a) == [[]] + restA;
      } else {
        assert rest[0] == restA[0];
        assert rest[1..] == restA[1..] + SplitColons(b);
        assert SplitColons(s) == [[s[0]] + rest[0]] + rest[1..];
        assert SplitColons(a) == [[a[0]] + restA[0]] + restA[1..];
      }
    }
  }

  function TrimEach(segments: seq<string>): (r: seq<string>)
    ensures |r| == |segments|
    ensures forall k :: 0 <= k < |r| ==> r[k] == Trim(segments[k])
  {
    seq(|segments|, k requires 0 <= k < |segments| => Trim(segments[k]))
  }

  /** `.filter(|s| !s.is_empty())`, keeping the order. */
  function DropEmpty(segments: seq<string>): (r: seq<string>)
    ensures |r| <= |segments|
    ensures forall k :: 0 <= k < |r| ==> r[k] != [] && r[k] in segments
  {
    if segments == [] then []
    else if segments[0] == [] then DropEmpty(segments[1..])
    else [segments[0]] + DropEmpty(segments[1..])
  }

  lemma {:induction false} DropEmptyAppend(a: seq<string>, b: seq<string>)
    ensures DropEmpty(a + b) == DropEmpty(a) + DropEmpty(b)
  {
    var t := a + b;
    if a != [] {
      assert t[0] == a[0];
      assert t[1..] == a[1..] + b;
      DropEmptyAppend(a[1..], b);
      var tail := DropEmpty(a[1..]);
      if a[0] == [] {
        assert DropEmpty(t) == DropEmpty(t[1..]);
        assert DropEmpty(a) == tail;
      } else {
        assert DropEmpty(t) == [a[0]] + DropEmpty(t[1..]);
        assert DropEmpty(a) == [a[0]] + tail;
        assert [a[0]] + (tail + DropEmpty(b)) == ([a[0]] + tail) + DropEmpty(b);
      }
    } else {
      assert t == b;
    }
  }

  /** The paths a module search specification names, before canonicalization. */
  function ModulePathSegments(spec: string): seq<string> {
    DropEmpty(TrimEach(SplitColons(NormalizeSeparators(spec))))
  }

  /** Every segment is non-empty, already trimmed, and free of both separators. */
  lemma ModulePathSegmentsWellFormed(spec: string)
    ensures forall k :: 0 <= k < |ModulePathSegments(spec)| ==>
              var seg := ModulePathSegments(spec)[k];
              seg != [] && Trim(seg) == seg && ':' !in seg && ';' !in seg
  {
    var split := SplitColons(NormalizeSeparators(spec));
    var trimmed := TrimEach(split);
    forall k | 0 <= k < |ModulePathSegments(spec)|
      ensures var seg := ModulePathSegments(spec)[k];
              seg != [] && Trim(seg) == seg && ':' !in seg && ';' !in seg
    {
      var seg := ModulePathSegments(spec)[k];
      assert seg in trimmed;
      var j :| 0 <= j < |trimmed| && trimmed[j] == seg;
      TrimIdempotent(split[j]);
      TrimIsInfix(split[j]);
      InfixChars(NormalizeSeparators(spec), split, j);
    }
  }

  /** The trimmed string is a contiguous piece of the original. */
  lemma TrimIsInfix(s: string)
    ensures forall c :: c in Trim(s) ==> c in s
  {
    var t := TrimStart(s);
    assert forall c :: c in t ==> c in s by {
      assert t == s[|s| - |t|..];
    }
    assert forall c :: c in TrimEnd(t) ==> c in t by {
      assert TrimEnd(t) == t[..|TrimEnd(t)|];
    }
  }

  /** A segment of a split of a semicolon-free string holds neither separator. */
  lemma InfixChars(s: string, split: seq<string>, j: nat)
    requires forall i :: 0 <= i < |s| ==> s[i] != ';'
    requires split == SplitColons(s) && j < |split|
    ensures ':' !in split[j] && ';' !in split[j]
  {
    SegmentsFromText(s, j);
  }

  lemma {:induction false} SegmentsFromText(s: string, j: nat)
    requires j < |SplitColons(s)|
    ensures forall c :: c in SplitColons(s)[j] ==> c in s
  {
    if s != [] {
      var rest := SplitColons(s[1..]);
      if s[0] == ':' {
        if j > 0 { SegmentsFromText(s[1..], j - 1); }
      } else {
        if j == 0 {
          SegmentsFromText(s[1..], 0);
        } else {
          SegmentsFromText(s[1..], j);
        }
      }
    }
  }

  /** Both separators split the same way, and a list is the concatenation of its parts:
      the specification is read left to right and keeps its order. */
  lemma ModulePathSegmentsAppend(a: string, sep: char, b: string)
    requires sep == ':' || sep == ';'
    ensures ModulePathSegments(a + [sep] + b) == ModulePathSegments(a) + ModulePathSegments(b)
  {
    NormalizeAppend(a, sep, b);
    SplitColonsAppend(NormalizeSeparators(a), NormalizeSeparators(b));
    var sa := SplitColons(NormalizeSeparators(a));
    var sb := SplitColons(NormalizeSeparators(b));
    TrimEachAppend(sa, sb);
    DropEmptyAppend(TrimEach(sa), TrimEach(sb));
  }

  lemma NormalizeAppend(a: string, sep: char, b: string)
    requires sep == ':' || sep == ';'
    ensures NormalizeSeparators(a + [sep] + b) == NormalizeSeparators(a) + ":" + NormalizeSeparators(b)
  {
    var l := NormalizeSeparators(a + [sep] + b);
    var r := NormalizeSeparators(a) + ":" + NormalizeSeparators(b);
    assert |l| == |r|;
    forall i | 0 <= i < |l| ensures l[i] == r[i] {
      if i < |a| {
        assert (a + [sep] + b)[i] == a[i];
      } else if i == |a| {
        assert (a + [sep] + b)[i] == sep;
      } else {
        assert (a + [sep] + b)[i] == b[i - |a| - 1];
      }
    }
  }

  lemma TrimEachAppend(a: seq<string>, b: seq<string>)
    ensures TrimEach(a + b) == TrimEach(a) + TrimEach(b)
  {
    var l := TrimEach(a + b);
    var r := TrimEach(a) + TrimEach(b);
    assert |l| == |r|;
    forall i | 0 <= i < |l| ensures l[i] == r[i] {
      if i < |a| {
        assert l[i] == Trim((a + b)[i]) && (a + b)[i] == a[i];
        assert r[i] == TrimEach(a)[i];
      } else {
        assert l[i] == Trim((a + b)[i]) && (a + b)[i] == b[i - |a|];
        assert r[i] == TrimEach(b)[i - |a|];
      }
    }
  }

  /** A specification without separators names one path, its trimmed text, or none when
      that is empty. */
  lemma ModulePathSegmentsSingle(spec: string)
    requires ':' !in spec && ';' !in spec
    ensures ModulePathSegments(spec) == if Trim(spec) == [] then [] else [Trim(spec)]
  {
    assert NormalizeSeparators(spec) == spec;
    NoColonSplit(spec);
  }

  lemma {:induction false} NoColonSplit(s: string)
    requires ':' !in s
    ensures SplitColons(s) == [s]
  {
    if s != [] {
      NoColonSplit(s[1..]);
      assert s == [s[0]] + s[1..];
    }
  }

  function CanonEach(host: Host, paths: seq<Path>): (r: seq<Path>)
    ensures |r| == |paths|
    ensures forall k :: 0 <= k < |r| ==> r[k] == Canon(host, paths[k])
  {
    seq(|paths|, k requires 0 <= k < |paths| => Canon(host, paths[k]))
  }

  /** `Interpreter::parse_modules_path_list`. */
  function ParseModulesPathList(host: Host, spec: string): (r: seq<Path>)
    ensures |r| == |ModulePathSegments(spec)|
  {
    CanonEach(host, ModulePathSegments(spec))
  }

  /** As canonicalization never produces an empty path, the list never holds one. */
  lemma ModulesPathListHasNoEmptyPath(host: Host, spec: string)
    requires forall p :: host.canonicalize(p).Some? ==> host.canonicalize(p).value != []
    ensures forall k :: 0 <= k < |ParseModulesPathList(host, spec)| ==> ParseModulesPathList(host, spec)[k] != []
  {
    ModulePathSegmentsWellFormed(spec);
  }

  // ---------------------------------------------------------------------------------
  // resolve_include_path

  /** The position of the first directory in `dirs` under which `rel` exists, or `|dirs|`. */
  function FirstExisting(host: Host, dirs: seq<Path>, rel: Path): (k: nat)
    ensures k <= |dirs|
    ensures k < |dirs| ==> host.fileExists(Join(dirs[k], rel))
    ensures forall j :: 0 <= j < k ==> !host.fileExists(Join(dirs[j], rel))
  {
    if dirs == [] then 0
    else if host.fileExists(Join(dirs[0], rel)) then 0
    else 1 + FirstExisting(host, dirs[1..], rel)
  }

  /** Where a relative include falls back to when no search directory holds it: the working
      directory joined with it, or the path itself when there is no working directory. */
  function FallbackPath(host: Host, path: Path): Path {
    match host.currentDir
    case Some(cwd) => Join(cwd, path)
    case None => path
  }

  /** `Interpreter::resolve_include_path`. */
  function ResolveIncludePath(host: Host, baseDirs: seq<Path>, modulesPaths: seq<Path>, path: Path): Path {
    if IsAbsolute(path) then path
    else if baseDirs != [] && host.fileExists(Join(baseDirs[|baseDirs| - 1], path)) then
      Join(baseDirs[|baseDirs| - 1], path)
    else
      var k := FirstExisting(host, modulesPaths, path);
      if k < |modulesPaths| then Join(modulesPaths[k], path) else FallbackPath(host, path)
  }

  /** The directories a relative include is looked for in, in order. */
  function SearchDirs(baseDirs: seq<Path>, modulesPaths: seq<Path>): seq<Path> {
    (if baseDirs == [] then [] else [baseDirs[|baseDirs| - 1]]) + modulesPaths
  }

  lemma FirstExistingCons(host: Host, d: Path, dirs: seq<Path>, rel: Path)
    ensures FirstExisting(host, [d] + dirs, rel) ==
              if host.fileExists(Join(d, rel)) then 0 else 1 + FirstExisting(host, dirs, rel)
  {
    assert ([d] + dirs)[1..] == dirs;
  }

  /** Resolution is a first-match search: an absolute path is used as it is; a relative one
      resolves under the first search directory where it exists, and only when it exists in
      none of them does it fall back. */
  lemma ResolveIsFirstMatch(host: Host, baseDirs: seq<Path>, modulesPaths: seq<Path>, path: Path)
    requires !IsAbsolute(path)
    ensures ResolveIncludePath(host, baseDirs, modulesPaths, path) ==
              var dirs := SearchDirs(baseDirs, modulesPaths);
              var k := FirstExisting(host, dirs, path);
              if k < |dirs| then Join(dirs[k], path) else FallbackPath(host, path)
  {
    var dirs := SearchDirs(baseDirs, modulesPaths);
    if baseDirs == [] {
      assert dirs == modulesPaths;
    } else {
      var top := baseDirs[|baseDirs| - 1];
      var m := FirstExisting(host, modulesPaths, path);
      assert FirstExisting(host, dirs, path) == if host.fileExists(Join(top, path)) then 0 else 1 + m by {
        assert dirs == [top] + modulesPaths;
        FirstExistingCons(host, top, modulesPaths, path);
      }
      assert |dirs| == 1 + |modulesPaths| && dirs[0] == top && (m < |modulesPaths| ==> dirs[1 + m] == modulesPaths[m]) by {
        assert dirs == [top] + modulesPaths;
      }
    }
  }
}
