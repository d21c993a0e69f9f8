/** Executable resolution of the tether (lib/tether/tether_linux.go,
    findExecutable and lookPath), over an abstract file system.

    `os.Stat` is the only contact with the file system; it is a parameter
    here: a function from a path to either the file's mode bits or the
    error Stat reported. */
module TetherLookPath {
  import opened Wrappers

  /** Go's os.FileMode: 32 mode bits. */
  type FileMode = bv32

  /** The directory bit of os.FileMode (fs.ModeDir, the top bit). */
  const ModeDir: FileMode := 0x8000_0000
  /** Execute permission for user, group and other. */
  const ExecBits: FileMode := 0x49  // octal 0111

  /** The errors lookPath can return. */
  datatype Error =
    | StatFailure(cause: string)   // whatever os.Stat reported, passed on unchanged
    | ErrPermission                // os.ErrPermission
    | Errorf(msg: string)          // an error built with fmt.Errorf

  /** What os.Stat reports for one path. */
  datatype StatResult = Stat(mode: FileMode) | StatError(err: Error)

  /** The file system as lookPath sees it: Stat of every path. */
  type FileSystem = string -> StatResult

  /** Reference definition: the path names an existing file that is not a
      directory and has at least one execute bit set. */
  predicate IsExecutable(fs: FileSystem, path: string)
  {
    fs(path).Stat? && fs(path).mode & ModeDir == 0 && fs(path).mode & ExecBits != 0
  }

  /** findExecutable: succeeds exactly for executable files; a Stat failure
      is passed on unchanged and anything else is a permission error. */
  function FindExecutable(fs: FileSystem, file: string): (r: Outcome<Error>)
    ensures r == Pass <==> IsExecutable(fs, file)
    ensures fs(file).StatError? ==> r == Fail(fs(file).err)
    ensures fs(file).Stat? && !IsExecutable(fs, file) ==> r == Fail(ErrPermission)
  {
    match fs(file)
    case StatError(err) => Fail(err)
    case Stat(m) =>
      if m & ModeDir == 0 && m & ExecBits != 0 then Pass else Fail(ErrPermission)
  }

  /** The error lookPath returns when no directory of PATH holds the file. */
  function NotInPath(file: string): Error
  {
    Errorf(file + ": no such executable in PATH")
  }

  /** A name that lookPath resolves against the working directory. */
  predicate IsRelative(file: string)
  {
    "./" <= file || "../" <= file
  }

  /** The path of `file` inside directory `dir`. */
  function InDir(dir: string, file: string): string
  {
    dir + "/" + file
  }

  /** The value of the first `PATH=` entry of an environment, or "" when
      there is none (strings.TrimPrefix of the empty string is empty). */
  function PathValue(env: seq<string>): string
  {
    if env == [] then ""
    else if "PATH=" <= env[0] then env[0][|"PATH="|..]
    else PathValue(env[1..])
  }

  /** strings.Split with a one-character separator: n separators give
      n + 1 pieces, empty pieces included. */
  function Split(s: string, sep: char): (parts: seq<string>)
    ensures |parts| >= 1
  {
    if s == [] then [""]
    else
      var rest := Split(s[1..], sep);
      if s[0] == sep then [""] + rest else [[s[0]] + rest[0]] + rest[1..]
  }

  /** strings.Join with a one-character separator, the inverse of Split. */
  function Join(parts: seq<string>, sep: char): string
    requires |parts| >= 1
  {
    if |parts| == 1 then parts[0] else parts[0] + [sep] + Join(parts[1..], sep)
  }

  /** filepath.SplitList on Unix: the empty list for the empty string,
      otherwise the pieces between colons. */
  function SplitList(path: string): seq<string>
  {
    if path == "" then [] else Split(path, ':')
  }

  /** The directory a PATH element names: the empty element means ".". */
  function SearchDir(element: string): string
  {
    if element == "" then "." else element
  }

  /** The search through PATH elements, in order: the first candidate that
      passes findExecutable, else the not-in-PATH error. */
  function SearchPath(fs: FileSystem, file: string, elements: seq<string>): Result<string, Error>
  {
    if elements == [] then Err(NotInPath(file))
    else if FindExecutable(fs, InDir(SearchDir(elements[0]), file)) == Pass then
      Ok(InDir(SearchDir(elements[0]), file))
    else SearchPath(fs, file, elements[1..])
  }

  /** The result lookPath computes, stated case by case. */
  function Resolve(fs: FileSystem, file: string, env: seq<string>, dir: string): Result<string, Error>
  {
    if IsRelative(file) then
      (match FindExecutable(fs, InDir(dir, file))
       case Pass => Ok(InDir(dir, file))
       case Fail(e) => Err(e))
    else if '/' in file then
      (match FindExecutable(fs, file)
       case Pass => Ok(file)
       case Fail(e) => Err(e))
    else SearchPath(fs, file, SplitList(PathValue(env)))
  }

  /** lookPath: resolves `file` for a session whose environment is `env` and
      whose working directory is `dir`. */
  method LookPath(fs: FileSystem, file: string, env: seq<string>, dir: string)
    returns (r: Result<string, Error>)
    ensures r == Resolve(fs, file, env, dir)
  {
    if "./" <= file || "../" <= file {
      var path := dir + "/" + file;
      var err := FindExecutable(fs, path);
      if err == Pass {
        return Ok(path);
      }
      return Err(err.error);
    }

    if '/' in file {
      var err := FindExecutable(fs, file);
      if err == Pass {
        return Ok(file);
      }
      return Err(err.error);
    }

    var pathenv := "";
    var i := 0;
    while i < |env|
      invariant 0 <= i <= |env|
      invariant pathenv == ""
      invariant PathValue(env) == PathValue(env[i..])
    {
      if "PATH=" <= env[i] {
        pathenv := env[i];
        break;
      }
      i := i + 1;
    }

    var pathval := if "PATH=" <= pathenv then pathenv[|"PATH="|..] else pathenv;
    var dirs := SplitList(pathval);
    var k := 0;
    while k < |dirs|
      invariant 0 <= k <= |dirs|
      invariant SearchPath(fs, file, dirs) == SearchPath(fs, file, dirs[k..])
    {
      var d := dirs[k];
      if d == "" {
        d := ".";
      }
      var path := d + "/" + file;
      if FindExecutable(fs, path) == Pass {
        return Ok(path);
      }
      k := k + 1;
    }
    return Err(NotInPath(file));
  }

  // ---------------------------------------------------------------------
  // Properties of the resolution

  /** A `./` or `../` name is resolved only against the working directory:
      the one candidate is `dir/file`, it succeeds exactly when that
      candidate is executable, its error is findExecutable's, and the
      environment (PATH included) plays no part. */
  lemma RelativeNameUsesWorkingDir(fs: FileSystem, file: string, env: seq<string>, dir: string, otherEnv: seq<string>)
    requires IsRelative(file)
    ensures Resolve(fs, file, env, dir).Ok? <==> IsExecutable(fs, InDir(dir, file))
    ensures Resolve(fs, file, env, dir).Ok? ==> Resolve(fs, file, env, dir).value == InDir(dir, file)
    ensures Resolve(fs, file, env, dir).Err? ==> Fail(Resolve(fs, file, env, dir).error) == FindExecutable(fs, InDir(dir, file))
    ensures Resolve(fs, file, env, dir) == Resolve(fs, file, otherEnv, dir)
  {
  }

  /** Any other name holding a `/` is checked as given: it comes back
      unchanged when executable, findExecutable's error otherwise, and
      neither the environment nor the working directory matters. */
  lemma QualifiedNameCheckedAsGiven(fs: FileSystem, file: string, env: seq<string>, dir: string, otherEnv: seq<string>, otherDir: string)
    requires !IsRelative(file) && '/' in file
    ensures Resolve(fs, file, env, dir).Ok? <==> IsExecutable(fs, file)
    ensures Resolve(fs, file, env, dir).Ok? ==> Resolve(fs, file, env, dir).value == file
    ensures Resolve(fs, file, env, dir).Err? ==> Fail(Resolve(fs, file, env, dir).error) == FindExecutable(fs, file)
    ensures Resolve(fs, file, env, dir) == Resolve(fs, file, otherEnv, otherDir)
  {
  }

  /** Only the first `PATH=` entry of the environment is used. */
  lemma {:induction false} FirstPathEntryWins(env: seq<string>, i: nat)
    requires i < |env| && "PATH=" <= env[i]
    requires forall j | 0 <= j < i :: !("PATH=" <= env[j])
    ensures PathValue(env) == env[i][|"PATH="|..]
  {
    if i > 0 {
      FirstPathEntryWins(env[1..], i - 1);
    }
  }

  /** Without any `PATH=` entry the path value is empty. */
  lemma {:induction false} NoPathEntry(env: seq<string>)
    requires forall j | 0 <= j < |env| :: !("PATH=" <= env[j])
    ensures PathValue(env) == ""
  {
    if env != [] {
      NoPathEntry(env[1..]);
    }
  }

  /** The candidate lookPath tries for the i-th PATH element. */
  function Candidate(file: string, elements: seq<string>, i: nat): string
    requires i < |elements|
  {
    InDir(SearchDir(elements[i]), file)
  }

  /** A successful search returns the candidate of some element that is
      executable, and every earlier candidate failed. */
  lemma {:induction false} SearchPathFindsFirst(fs: FileSystem, file: string, elements: seq<string>)
    returns (i: nat)
    requires SearchPath(fs, file, elements).Ok?
    ensures i < |elements|
    ensures SearchPath(fs, file, elements).value == Candidate(file, elements, i)
    ensures IsExecutable(fs, Candidate(file, elements, i))
    ensures forall j | 0 <= j < i :: !IsExecutable(fs, Candidate(file, elements, j))
  {
    if FindExecutable(fs, InDir(SearchDir(elements[0]), file)) == Pass {
      i := 0;
    } else {
      var k := SearchPathFindsFirst(fs, file, elements[1..]);
      i := k + 1;
      forall j | 0 <= j < i
        ensures !IsExecutable(fs, Candidate(file, elements, j))
      {
        if j > 0 {
          assert Candidate(file, elements, j) == Candidate(file, elements[1..], j - 1);
        }
      }
    }
  }

  /** Conversely, the first executable candidate is what the search returns. */
  lemma {:induction false} FirstExecutableIsFound(fs: FileSystem, file: string, elements: seq<string>, i: nat)
    requires i < |elements|
    requires IsExecutable(fs, Candidate(file, elements, i))
    requires forall j | 0 <= j < i :: !IsExecutable(fs, Candidate(file, elements, j))
    ensures SearchPath(fs, file, elements) == Ok(Candidate(file, elements, i))
  {
    if i > 0 {
      assert !IsExecutable(fs, Candidate(file, elements, 0));
      forall j | 0 <= j < i - 1
        ensures !IsExecutable(fs, Candidate(file, elements[1..], j))
      {
        assert Candidate(file, elements[1..], j) == Candidate(file, elements, j + 1);
      }
      FirstExecutableIsFound(fs, file, elements[1..], i - 1);
    }
  }

  /** The search fails exactly when no candidate is executable, and its
      error is then always the not-in-PATH error naming the file. */
  lemma {:induction false} SearchPathFails(fs: FileSystem, file: string, elements: seq<string>)
    ensures SearchPath(fs, file, elements).Err?
            <==> forall j | 0 <= j < |elements| :: !IsExecutable(fs, Candidate(file, elements, j))
    ensures SearchPath(fs, file, elements).Err? ==> SearchPath(fs, file, elements).error == NotInPath(file)
  {
    if elements != [] {
      SearchPathFails(fs, file, elements[1..]);
      forall j | 0 <= j < |elements| - 1
        ensures Candidate(file, elements[1..], j) == Candidate(file, elements, j + 1)
      {
      }
      var none := forall j | 0 <= j < |elements| :: !IsExecutable(fs, Candidate(file, elements, j));
      var noneRest := forall j | 0 <= j < |elements| - 1 :: !IsExecutable(fs, Candidate(file, elements[1..], j));
      assert none <==> !IsExecutable(fs, Candidate(file, elements, 0)) && noneRest by {
        if !IsExecutable(fs, Candidate(file, elements, 0)) && noneRest {
          forall j | 0 <= j < |elements|
            ensures !IsExecutable(fs, Candidate(file, elements, j))
          {
            if j > 0 {
              assert Candidate(file, elements[1..], j - 1) == Candidate(file, elements, j);
            }
          }
        }
      }
    }
  }

  /** A bare name with no `PATH=` entry, or with an empty PATH value,
      fails with the not-in-PATH error: nothing is searched. */
  lemma EmptyPathFindsNothing(fs: FileSystem, file: string, env: seq<string>, dir: string)
    requires '/' !in file
    requires PathValue(env) == ""
    ensures Resolve(fs, file, env, dir) == Err(NotInPath(file))
  {
    BareNameIsNotRelative(file);
  }

  /** For a bare name the working directory plays no part. */
  lemma BareNameIgnoresWorkingDir(fs: FileSystem, file: string, env: seq<string>, dir: string, otherDir: string)
    requires '/' !in file
    ensures Resolve(fs, file, env, dir) == Resolve(fs, file, env, otherDir)
    ensures Resolve(fs, file, env, dir) == SearchPath(fs, file, SplitList(PathValue(env)))
  {
    BareNameIsNotRelative(file);
  }

  /** A `./` or `../` prefix holds a slash, so a name without one is bare. */
  lemma BareNameIsNotRelative(file: string)
    requires '/' !in file
    ensures !IsRelative(file)
  {
    if |file| >= 2 {
      assert file[1] in file;
    }
    if |file| >= 3 {
      assert file[2] in file;
    }
  }

  /** Split and Join are inverse: joining the pieces gives back the string,
      and no piece holds the separator. */
  lemma {:induction false} JoinSplit(s: string, sep: char)
    ensures Join(Split(s, sep), sep) == s
    ensures forall k | 0 <= k < |Split(s, sep)| :: sep !in Split(s, sep)[k]
  {
    if s != [] {
      JoinSplit(s[1..], sep);
      var rest := Split(s[1..], sep);
      if s[0] == sep {
        assert Split(s, sep)[1..] == rest;
      } else {
        var parts := Split(s, sep);
        if |rest| == 1 {
          assert Join(parts, sep) == [s[0]] + rest[0];
        } else {
          assert parts[1..] == rest[1..];
          assert Join(parts, sep) == [s[0]] + rest[0] + [sep] + Join(rest[1..], sep);
        }
        assert s == [s[0]] + s[1..];
      }
    }
  }

  /** Splitting a joined list of separator-free pieces gives the pieces back. */
  lemma {:induction false} SplitJoin(parts: seq<string>, sep: char)
    requires |parts| >= 1
    requires forall k | 0 <= k < |parts| :: sep !in parts[k]
    ensures Split(Join(parts, sep), sep) == parts
  {
    if |parts| == 1 {
      SplitNoSeparator(parts[0], sep);
    } else {
      SplitJoin(parts[1..], sep);
      SplitPrefix(parts[0], Join(parts[1..], sep), sep);
      assert Join(parts, sep) == parts[0] + ([sep] + Join(parts[1..], sep));
    }
  }

  /** A string without the separator splits into itself alone. */
  lemma {:induction false} SplitNoSeparator(s: string, sep: char)
    requires sep !in s
    ensures Split(s, sep) == [s]
  {
    if s != [] {
      SplitNoSeparator(s[1..], sep);
      assert s == [s[0]] + s[1..];
    }
  }

  /** A separator-free prefix followed by a separator becomes the first piece. */
  lemma {:induction false} SplitPrefix(p: string, t: string, sep: char)
    requires sep !in p
    ensures Split(p + ([sep] + t), sep) == [p] + Split(t, sep)
  {
    if p == [] {
      assert p + ([sep] + t) == [sep] + t;
      assert ([sep] + t)[1..] == t;
    } else {
      SplitPrefix(p[1..], t, sep);
      assert (p + ([sep] + t))[1..] == p[1..] + ([sep] + t);
      assert [p[0]] + p[1..] == p;
    }
  }

  // ---------------------------------------------------------------------
  // The scenario of a session with PATH=/usr/bin:/bin

  /** A file system holding one executable, /bin/foo (mode 0755). */
  function OnlyBinFoo(path: string): StatResult
  {
    if path == "/bin/foo" then Stat(0x1ed) else StatError(StatFailure("no such file or directory"))
  }

  /** `foo` resolves to /bin/foo through the session's PATH, after the
      candidate in /usr/bin failed. */
  lemma BinFooScenario()
    ensures Resolve(OnlyBinFoo, "foo", ["HOME=/root", "PATH=/usr/bin:/bin"], "/work") == Ok("/bin/foo")
  {
    var env := ["HOME=/root", "PATH=/usr/bin:/bin"];
    assert env[0][0] != "PATH="[0];
    FirstPathEntryWins(env, 1);
    var elements := ["/usr/bin", "/bin"];
    assert SplitList(PathValue(env)) == elements by {
      SplitJoin(elements, ':');
      assert Join(elements, ':') == "/usr/bin:/bin";
    }
    assert !IsExecutable(OnlyBinFoo, Candidate("foo", elements, 0)) by {
      assert |Candidate("foo", elements, 0)| != |"/bin/foo"|;
    }
    FirstExecutableIsFound(OnlyBinFoo, "foo", elements, 1);
    BareNameIgnoresWorkingDir(OnlyBinFoo, "foo", env, "/work", "/work");
  }

  /** `./foo` is looked for in the working directory only, so PATH's
      /bin/foo does not make it resolve. */
  lemma DotFooScenario()
    ensures Resolve(OnlyBinFoo, "./foo", ["PATH=/usr/bin:/bin"], "/work")
            == Err(StatFailure("no such file or directory"))
  {
    assert IsRelative("./foo");
    assert |InDir("/work", "./foo")| != |"/bin/foo"|;
  }
}
