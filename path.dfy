/** Lexical core of the `fs::path` value type: splitting a string into
    segments, parsing the POSIX and Windows grammars, rendering a path back
    to a string, and the path algebra (join, parent, filename, extension).

    A path is a value: the source copies it (`path result(*this)`) and
    compares it field by field, so the model uses a datatype and returns new
    values where the source fills in a fresh object. */
module FsPath {

  /** The two grammars a path can be parsed with and rendered in. */
  datatype PathType = PosixPath | WindowsPath

  /** `m_path`, `m_absolute` and `m_type` of the source. */
  datatype Path = Path(segments: seq<string>, absolute: bool, kind: PathType)

  /** The two `runtime_error`s thrown by `operator/`. */
  datatype JoinError = ExpectedRelative | ExpectedSameType

  datatype Result<T> = Ok(value: T) | Err(error: JoinError)

  /** Stands for `std::string::npos`: a position that is never a valid index. */
  const NPOS: int := -1

  const POSIX_DELIMS: string := "/"
  const WINDOWS_DELIMS: string := "/\\"

  /** The `\\?\` prefix that `set` strips from a Windows path. */
  const LONG_PATH_PREFIX: string := "\\\\?\\"

  /** What `str` appends for a long Windows path: the header is a char array
      whose extent counts its terminating NUL, so five characters go out,
      the last one being '\0'. Kept as written. */
  const LONG_PATH_HEADER: string := "\\\\?\\\0"

  // ---------------------------------------------------------------------
  // Splitting
  // ---------------------------------------------------------------------

  predicate DelimiterFree(t: string, delims: string)
  {
    forall i :: 0 <= i < |t| ==> t[i] !in delims
  }

  /** `s.find_first_of(delims, from)`: the first position at or after
      `from` that holds a delimiter, or NPOS. */
  function FindFirstOf(s: string, delims: string, from: nat): (pos: int)
    ensures pos == NPOS || (from <= pos < |s| && s[pos] in delims)
    ensures forall j :: from <= j < (if pos == NPOS then |s| else pos) ==> s[j] !in delims
    decreases |s| - from
  {
    if from >= |s| then NPOS
    else if s[from] in delims then from
    else FindFirstOf(s, delims, from + 1)
  }

  /** Length of the delimiter-free run at the start of `s`. */
  function RunEnd(s: string, delims: string): (k: nat)
    ensures k <= |s|
    ensures forall i :: 0 <= i < k ==> s[i] !in delims
    ensures k < |s| ==> s[k] in delims
  {
    if s == [] || s[0] in delims then 0 else 1 + RunEnd(s[1..], delims)
  }

  /** The maximal delimiter-free runs of `s`, left to right: the reference
      definition that `Tokenize` is proved against. */
  function Runs(s: string, delims: string): seq<string>
    decreases |s|
  {
    if s == [] then []
    else if s[0] in delims then Runs(s[1..], delims)
    else
      var k := RunEnd(s, delims);
      [s[..k]] + Runs(s[k..], delims)
  }

  /** No token is empty and none holds a delimiter. */
  lemma {:induction false} RunsWellFormed(s: string, delims: string)
    ensures forall i :: 0 <= i < |Runs(s, delims)| ==>
              Runs(s, delims)[i] != [] && DelimiterFree(Runs(s, delims)[i], delims)
    decreases |s|
  {
    if s != [] {
      if s[0] in delims {
        RunsWellFormed(s[1..], delims);
        assert Runs(s, delims) == Runs(s[1..], delims);
      } else {
        var k := RunEnd(s, delims);
        RunsWellFormed(s[k..], delims);
        var r := Runs(s, delims);
        assert r == [s[..k]] + Runs(s[k..], delims);
        assert k >= 1 && DelimiterFree(s[..k], delims);
        forall i | 0 <= i < |r| ensures r[i] != [] && DelimiterFree(r[i], delims) {
          if i > 0 {
            assert r[i] == Runs(s[k..], delims)[i - 1];
          }
        }
      }
    }
  }

  /** What `tokenize` returns. On the empty string its loop pushes one empty
      token, because the first `pos` is npos and differs from `lastPos`. */
  function Tokens(s: string, delims: string): (r: seq<string>)
  {
    if s == [] then [""] else Runs(s, delims)
  }

  lemma RunEndUnique(s: string, delims: string, k: nat)
    requires k <= |s|
    requires forall i :: 0 <= i < k ==> s[i] !in delims
    requires k < |s| ==> s[k] in delims
    ensures RunEnd(s, delims) == k
  {
  }

  /** A run that starts at `from` and stops at `end`, before a delimiter or
      at the end of `s`, is the first token of `s[from..]`. */
  lemma RunTo(s: string, delims: string, from: nat, end: nat)
    requires from < end <= |s|
    requires forall j :: from <= j < end ==> s[j] !in delims
    requires end < |s| ==> s[end] in delims
    ensures Runs(s[from..], delims) == [s[from..end]] + Runs(s[end..], delims)
  {
    var t := s[from..];
    var k := end - from;
    assert RunEnd(t, delims) == k by {
      forall i | 0 <= i < k ensures t[i] !in delims {
        assert t[i] == s[from + i];
      }
      assert k < |t| ==> t[k] == s[end];
      RunEndUnique(t, delims, k);
    }
    assert t[0] !in delims;
    assert t[..k] == s[from..end] && t[k..] == s[end..];
  }

  lemma SkipDelimiter(s: string, delims: string, i: nat)
    requires i < |s| && s[i] in delims
    ensures Runs(s[i..], delims) == Runs(s[i + 1..], delims)
  {
    assert s[i..][0] == s[i];
    assert s[i..][1..] == s[i + 1..];
  }

  /** What one turn of the tokenize loop sees at `lastPos`: a delimiter
      there is skipped, otherwise the run up to the next delimiter (or up to
      the end) is the first token of the rest. */
  lemma RunsFromPosition(s: string, delims: string, lastPos: nat)
    requires lastPos < |s|
    ensures var pos := FindFirstOf(s, delims, lastPos);
            pos == lastPos ==> Runs(s[lastPos..], delims) == Runs(s[pos + 1..], delims)
    ensures var pos := FindFirstOf(s, delims, lastPos);
            pos == NPOS ==> Runs(s[lastPos..], delims) == [s[lastPos..]]
    ensures var pos := FindFirstOf(s, delims, lastPos);
            pos != lastPos && pos != NPOS ==>
              Runs(s[lastPos..], delims) == [s[lastPos..pos]] + Runs(s[pos + 1..], delims)
  {
    var pos := FindFirstOf(s, delims, lastPos);
    if pos == lastPos {
      SkipDelimiter(s, delims, lastPos);
    } else if pos == NPOS {
      RunTo(s, delims, lastPos, |s|);
      assert s[lastPos..|s|] == s[lastPos..] && s[|s|..] == [];
    } else {
      RunTo(s, delims, lastPos, pos);
      SkipDelimiter(s, delims, pos);
    }
  }

  /** Moving the first of the remaining tokens onto the taken ones. */
  lemma TakeToken(taken: seq<string>, rest: seq<string>, token: string, after: seq<string>, all: seq<string>)
    requires taken + rest == all
    requires rest == [token] + after
    ensures (taken + [token]) + after == all
  {
    assert taken + ([token] + after) == (taken + [token]) + after;
  }

  /** The token one turn of the tokenize loop pushes at `lastPos` when the
      next delimiter (or npos) is at `pos`, if any. */
  function Pushed(s: string, lastPos: nat, pos: int): (r: seq<string>)
    requires lastPos < |s|
    requires pos == NPOS || lastPos <= pos < |s|
  {
    if pos == lastPos then []
    else if pos == NPOS then [s[lastPos..]]
    else [s[lastPos..pos]]
  }

  /** A turn of the tokenize loop that goes on: with the token pushed, the
      runs not yet taken start at `next`, just after the delimiter at `pos`. */
  lemma TokenizeContinues(s: string, delims: string, lastPos: nat, taken: seq<string>, pos: int,
                          tokens: seq<string>, next: nat)
    requires lastPos < |s|
    requires taken + Runs(s[lastPos..], delims) == Runs(s, delims)
    requires pos == FindFirstOf(s, delims, lastPos) && pos != NPOS
    requires tokens == taken + Pushed(s, lastPos, pos) && next == pos + 1
    ensures tokens + Runs(s[next..], delims) == Runs(s, delims)
  {
    var rest := Runs(s[lastPos..], delims);
    var after := Runs(s[next..], delims);
    if pos != lastPos {
      var token := s[lastPos..pos];
      assert rest == [token] + after by {
        RunsFromPosition(s, delims, lastPos);
      }
      assert tokens == taken + [token];
      TakeToken(taken, rest, token, after, Runs(s, delims));
    } else {
      assert rest == after by {
        RunsFromPosition(s, delims, lastPos);
      }
      assert tokens == taken + [];
    }
  }

  /** The turn of the tokenize loop that breaks out: every run has been taken. */
  lemma TokenizeEnds(s: string, delims: string, lastPos: nat, tokens: seq<string>, pos: int)
    requires lastPos < |s|
    requires tokens + Runs(s[lastPos..], delims) == Runs(s, delims)
    requires pos == FindFirstOf(s, delims, lastPos)
    requires pos == NPOS || pos + 1 == |s|
    ensures tokens + Pushed(s, lastPos, pos) == Runs(s, delims)
  {
    if pos == NPOS {
      RunsFromPosition(s, delims, lastPos);
      TakeToken(tokens, Runs(s[lastPos..], delims), s[lastPos..], [], Runs(s, delims));
      assert tokens + [s[lastPos..]] + [] == tokens + [s[lastPos..]];
    } else {
      var pushed := tokens + Pushed(s, lastPos, pos);
      TokenizeContinues(s, delims, lastPos, tokens, pos, pushed, pos + 1);
      assert s[pos + 1..] == [];
      assert pushed + [] == pushed;
    }
  }

  /** `tokenize(string, delim)`: cuts `s` at every delimiter and keeps the
      non-empty pieces. */
  method Tokenize(s: string, delims: string) returns (tokens: seq<string>)
    ensures tokens == Tokens(s, delims)
    ensures s == [] ==> tokens == [""]
    ensures s != [] ==> forall i :: 0 <= i < |tokens| ==> tokens[i] != [] && DelimiterFree(tokens[i], delims)
  {
    var lastPos: int := 0;
    var pos := FindFirstOf(s, delims, 0);
    tokens := [];
    // The source loops while `lastPos != npos`; lastPos is never npos at the
    // head of the loop, because the break below catches that case first.
    while true
      invariant 0 <= lastPos <= |s|
      invariant s != [] ==> lastPos < |s|
      invariant s == [] ==> lastPos == 0 && tokens == []
      invariant pos == FindFirstOf(s, delims, lastPos)
      invariant s != [] ==> tokens + Runs(s[lastPos..], delims) == Runs(s, delims)
      decreases |s| - lastPos
    {
      ghost var taken, from := tokens, lastPos;
      if pos != lastPos {
        // At npos, std::min(size, npos - lastPos) keeps the rest of the string.
        var token := if pos == NPOS then s[lastPos..] else s[lastPos..pos];
        tokens := tokens + [token];
      }
      lastPos := pos;
      if lastPos == NPOS || lastPos + 1 == |s| {
        if s != [] {
          TokenizeEnds(s, delims, from, taken, pos);
          assert tokens == taken + Pushed(s, from, pos);
        }
        break;
      }
      lastPos := lastPos + 1;
      if s != [] {
        TokenizeContinues(s, delims, from, taken, pos, tokens, lastPos);
      }
      pos := FindFirstOf(s, delims, lastPos);
    }
    RunsWellFormed(s, delims);
  }

  /** Concatenation of a sequence of strings. */
  function Concat(ts: seq<string>): string
  {
    if ts == [] then "" else ts[0] + Concat(ts[1..])
  }

  /** `s` with every delimiter character removed. */
  function Without(s: string, delims: string): (r: string)
  {
    if s == [] then ""
    else (if s[0] in delims then "" else [s[0]]) + Without(s[1..], delims)
  }

  lemma {:induction false} WithoutAppend(a: string, b: string, delims: string)
    ensures Without(a + b, delims) == Without(a, delims) + Without(b, delims)
    decreases |a|
  {
    if a != [] {
      assert (a + b)[0] == a[0] && (a + b)[1..] == a[1..] + b;
      WithoutAppend(a[1..], b, delims);
    } else {
      assert a + b == b;
    }
  }

  lemma {:induction false} WithoutDelimiterFree(t: string, delims: string)
    requires DelimiterFree(t, delims)
    ensures Without(t, delims) == t
    decreases |t|
  {
    if t != [] {
      WithoutDelimiterFree(t[1..], delims);
    }
  }

  /** Nothing but delimiters is lost: the runs, concatenated, are the input
      with its delimiters removed. */
  lemma {:induction false} RunsCoverInput(s: string, delims: string)
    ensures Concat(Runs(s, delims)) == Without(s, delims)
    decreases |s|
  {
    if s == [] {
    } else if s[0] in delims {
      RunsCoverInput(s[1..], delims);
    } else {
      var k := RunEnd(s, delims);
      var rest := Runs(s[k..], delims);
      RunsCoverInput(s[k..], delims);
      assert s == s[..k] + s[k..];
      WithoutAppend(s[..k], s[k..], delims);
      WithoutDelimiterFree(s[..k], delims);
      assert ([s[..k]] + rest)[1..] == rest;
    }
  }

  lemma RunEndStopsAtDelimiter(a: string, d: char, b: string, delims: string)
    requires d in delims
    ensures RunEnd(a + [d] + b, delims) == RunEnd(a, delims)
  {
    var s := a + [d] + b;
    var k := RunEnd(a, delims);
    forall i | 0 <= i < k ensures s[i] !in delims {
      assert s[i] == a[i];
    }
    assert s[k] in delims by {
      if k < |a| { assert s[k] == a[k]; } else { assert s[k] == d; }
    }
    RunEndUnique(s, delims, k);
  }

  /** A delimiter cuts the input into two independent halves. Together with
      RunsOfRun and `Runs("") == []` this pins Runs down: the tokens are
      exactly the maximal delimiter-free runs. */
  lemma {:induction false} RunsSplit(a: string, d: char, b: string, delims: string)
    requires d in delims
    ensures Runs(a + [d] + b, delims) == Runs(a, delims) + Runs(b, delims)
    decreases |a|
  {
    var s := a + [d] + b;
    if a == [] {
      assert s[0] == d && s[1..] == b;
    } else if a[0] in delims {
      assert s[0] == a[0] && s[1..] == a[1..] + [d] + b;
      RunsSplit(a[1..], d, b, delims);
    } else {
      var k := RunEnd(a, delims);
      var head, rest := a[..k], a[k..];
      assert s[..k] == head && s[k..] == rest + [d] + b by {
        assert a == head + rest;
      }
      assert Runs(s, delims) == [head] + Runs(rest + [d] + b, delims) by {
        RunEndStopsAtDelimiter(a, d, b, delims);
        assert s[0] == a[0];
      }
      assert Runs(a, delims) == [head] + Runs(rest, delims);
      RunsSplit(rest, d, b, delims);
      assert [head] + (Runs(rest, delims) + Runs(b, delims))
          == ([head] + Runs(rest, delims)) + Runs(b, delims);
    }
  }

  /** A non-empty delimiter-free string is a single token. */
  lemma RunsOfRun(t: string, delims: string)
    requires t != [] && DelimiterFree(t, delims)
    ensures Runs(t, delims) == [t]
  {
    RunEndUnique(t, delims, |t|);
    assert t[..|t|] == t && t[|t|..] == [];
  }

  // ---------------------------------------------------------------------
  // Joining segments (the segment loop of `str`)
  // ---------------------------------------------------------------------

  /** Segments joined with `sep`, no separator before the first or after the
      last one. */
  function JoinWith(segs: seq<string>, sep: char): string
  {
    if segs == [] then ""
    else if |segs| == 1 then segs[0]
    else JoinWith(segs[..|segs| - 1], sep) + [sep] + segs[|segs| - 1]
  }

  /** The same join, read from the front. */
  lemma {:induction false} JoinWithFront(segs: seq<string>, sep: char)
    requires segs != []
    ensures JoinWith(segs, sep) ==
            segs[0] + (if |segs| == 1 then "" else [sep] + JoinWith(segs[1..], sep))
    decreases |segs|
  {
    if |segs| > 2 {
      var init := segs[..|segs| - 1];
      JoinWithFront(init, sep);
      assert init[1..] == segs[1..][..|segs| - 2];
      assert init[0] == segs[0];
    } else if |segs| == 2 {
      assert segs[1..] == [segs[1]];
    }
  }

  /** Splitting a joined sequence of well-formed segments gives them back. */
  lemma {:induction false} RunsOfJoin(segs: seq<string>, sep: char, delims: string)
    requires sep in delims
    requires forall i :: 0 <= i < |segs| ==> segs[i] != [] && DelimiterFree(segs[i], delims)
    ensures Runs(JoinWith(segs, sep), delims) == segs
    decreases |segs|
  {
    if |segs| == 1 {
      RunsOfRun(segs[0], delims);
    } else if |segs| > 1 {
      var init := segs[..|segs| - 1];
      var last := segs[|segs| - 1];
      RunsOfJoin(init, sep, delims);
      RunsSplit(JoinWith(init, sep), sep, last, delims);
      RunsOfRun(last, delims);
    }
  }

  /** The sum over the segments of (length + 1): what `str` accumulates in
      `length`, counting one NUL or separator per segment. */
  function Weight(segs: seq<string>): nat
  {
    if segs == [] then 0 else Weight(segs[..|segs| - 1]) + |segs[|segs| - 1]| + 1
  }

  /** The accumulated length is the length of the joined segments plus one
      for the terminating NUL. */
  lemma {:induction false} WeightIsJoinedLength(segs: seq<string>, sep: char)
    requires segs != []
    ensures Weight(segs) == |JoinWith(segs, sep)| + 1
    decreases |segs|
  {
    if |segs| > 1 {
      WeightIsJoinedLength(segs[..|segs| - 1], sep);
    } else {
      assert segs[..0] == [];
    }
  }

  /** The path's segments when tokenized under `t`'s delimiter set. */
  function Delims(t: PathType): string
  {
    if t == PosixPath then POSIX_DELIMS else WINDOWS_DELIMS
  }

  /** Segments that survive a render and a re-parse: non-empty and free of
      the grammar's separators. */
  predicate WellFormedSegments(segs: seq<string>, t: PathType)
  {
    forall i :: 0 <= i < |segs| ==> segs[i] != [] && DelimiterFree(segs[i], Delims(t))
  }

  // ---------------------------------------------------------------------
  // Parsing
  // ---------------------------------------------------------------------

  /** `std::isalpha`, read in the "C" locale. */
  predicate IsAsciiAlpha(c: char)
  {
    'a' <= c <= 'z' || 'A' <= c <= 'Z'
  }

  /** `s` starts with a drive letter and a colon. */
  predicate HasDrive(s: string)
  {
    |s| >= 2 && IsAsciiAlpha(s[0]) && s[1] == ':'
  }

  /** One leading `\\?\` removed, if present. */
  function StripLongPathPrefix(s: string): string
  {
    if |s| >= |LONG_PATH_PREFIX| && s[..|LONG_PATH_PREFIX|] == LONG_PATH_PREFIX
    then s[|LONG_PATH_PREFIX|..]
    else s
  }

  /** The value `set(str, type)` gives the path. For Windows the drive
      letter and colon are not split off: they stay in the first segment. */
  function Parse(s: string, t: PathType): Path
  {
    match t
    case WindowsPath =>
      var rest := StripLongPathPrefix(s);
      Path(Tokens(rest, WINDOWS_DELIMS), HasDrive(rest), WindowsPath)
    case PosixPath =>
      Path(Tokens(s, POSIX_DELIMS), s != [] && s[0] == '/', PosixPath)
  }

  /** `set(str, type)`: assigns `m_type`, `m_path` and `m_absolute`. */
  method Set(s: string, t: PathType) returns (p: Path)
    ensures p == Parse(s, t)
  {
    if t == WindowsPath {
      var tmp := s;
      if |tmp| >= |LONG_PATH_PREFIX| && tmp[..|LONG_PATH_PREFIX|] == LONG_PATH_PREFIX {
        tmp := tmp[4..];
      }
      var segments := Tokenize(tmp, WINDOWS_DELIMS);
      var absolute := |tmp| >= 2 && IsAsciiAlpha(tmp[0]) && tmp[1] == ':';
      p := Path(segments, absolute, WindowsPath);
    } else {
      var segments := Tokenize(s, POSIX_DELIMS);
      p := Path(segments, s != [] && s[0] == '/', PosixPath);
    }
  }

  /** A Windows path parsed as absolute keeps its drive (`C:`) as the first
      two characters of its first segment. */
  lemma WindowsDriveInFirstSegment(s: string)
    requires Parse(s, WindowsPath).absolute
    ensures var p := Parse(s, WindowsPath);
            p.segments != [] && |p.segments[0]| >= 2 &&
            p.segments[0][..2] == StripLongPathPrefix(s)[..2]
  {
  }

  /** Only one `\\?\` is stripped: a doubled prefix leaves a relative path,
      whatever follows it. */
  lemma StripsOnePrefix(s: string)
    ensures !Parse(LONG_PATH_PREFIX + LONG_PATH_PREFIX + s, WindowsPath).absolute
  {
    var doubled := LONG_PATH_PREFIX + LONG_PATH_PREFIX + s;
    assert doubled[..|LONG_PATH_PREFIX|] == LONG_PATH_PREFIX;
    assert StripLongPathPrefix(doubled) == LONG_PATH_PREFIX + s;
  }

  // ---------------------------------------------------------------------
  // Rendering
  // ---------------------------------------------------------------------

  function Separator(t: PathType): char
  {
    if t == PosixPath then '/' else '\\'
  }

  /** What `str` writes before the segments. It looks at the path's own
      kind, not at the requested one. */
  function RootPrefix(p: Path, legacyMax: nat): string
  {
    if !p.absolute then ""
    else if p.kind == PosixPath then "/"
    else if Weight(p.segments) > legacyMax then LONG_PATH_HEADER
    else ""
  }

  /** The string `str(type)` returns; `legacyMax` is MAX_PATH_WINDOWS_LEGACY. */
  function Render(p: Path, t: PathType, legacyMax: nat): string
  {
    RootPrefix(p, legacyMax) + JoinWith(p.segments, Separator(t))
  }

  /** The root prefix follows the path's own kind and the separator the
      requested one: an absolute posix path rendered for Windows starts with
      '/' and still has backslashes between its segments. */
  lemma RootFollowsOwnKind(p: Path, legacyMax: nat)
    requires p.kind == PosixPath && p.absolute && |p.segments| >= 2
    ensures var r := Render(p, WindowsPath, legacyMax);
            r[0] == '/' && '\\' in r
  {
    JoinWithFront(p.segments, '\\');
    var r := Render(p, WindowsPath, legacyMax);
    assert r[1 + |p.segments[0]|] == '\\';
  }

  /** An absolute Windows-kind path short enough for no header gets no root
      prefix at all, not even under a posix render. */
  lemma WindowsKindHasNoSlashRoot(p: Path, legacyMax: nat)
    requires p.kind == WindowsPath && p.absolute && Weight(p.segments) <= legacyMax
    ensures Render(p, PosixPath, legacyMax) == JoinWith(p.segments, '/')
  {
    assert RootPrefix(p, legacyMax) == "";
  }

  lemma WeightStep(segs: seq<string>, i: nat)
    requires i < |segs|
    ensures Weight(segs[..i + 1]) == Weight(segs[..i]) + |segs[i]| + 1
  {
    assert segs[..i + 1][..i] == segs[..i];
  }

  lemma JoinWithStep(segs: seq<string>, i: nat, sep: char)
    requires i < |segs|
    ensures JoinWith(segs[..i + 1], sep) ==
            if i == 0 then segs[0] else JoinWith(segs[..i], sep) + [sep] + segs[i]
  {
    assert segs[..i + 1][..i] == segs[..i];
  }

  /** The `if (m_absolute)` block at the head of `str`: the '/' of a posix
      path, or for a Windows path the long-path header when the summed
      segment lengths exceed the legacy limit. */
  method StrRoot(p: Path, legacyMax: nat) returns (out: string)
    ensures out == RootPrefix(p, legacyMax)
  {
    out := "";
    if p.absolute {
      if p.kind == PosixPath {
        out := out + "/";
      } else {
        var length := 0;
        for i := 0 to |p.segments|
          invariant length == Weight(p.segments[..i])
        {
          WeightStep(p.segments, i);
          // No special case for the last segment: its +1 counts the NUL.
          length := length + |p.segments[i]| + 1;
        }
        assert p.segments[..|p.segments|] == p.segments;
        if length > legacyMax {
          out := out + LONG_PATH_HEADER;
        }
      }
    }
  }

  /** One turn of the segment loop of `str`: segment i goes out, then a
      separator unless it is the last one. */
  lemma StrStep(segs: seq<string>, i: nat, sep: char, prefix: string, out: string)
    requires i < |segs|
    requires out == prefix + JoinWith(segs[..i], sep) + (if 0 < i then [sep] else "")
    ensures var tail: string := if i + 1 < |segs| then [sep] else "";
            out + segs[i] + tail == prefix + JoinWith(segs[..i + 1], sep) + tail
  {
    JoinWithStep(segs, i, sep);
    if i == 0 {
      assert out == prefix + "" + "";
    } else {
      var tail: string := if i + 1 < |segs| then [sep] else "";
      assert ((prefix + JoinWith(segs[..i], sep)) + [sep]) + segs[i] + tail
          == prefix + (JoinWith(segs[..i], sep) + [sep] + segs[i]) + tail;
    }
  }

  /** `str(type)`. */
  method Str(p: Path, t: PathType, legacyMax: nat) returns (out: string)
    ensures out == Render(p, t, legacyMax)
  {
    out := StrRoot(p, legacyMax);
    ghost var prefix := out;
    ghost var sep := Separator(t);
    var n := |p.segments|;
    for i := 0 to n
      invariant out == prefix + JoinWith(p.segments[..i], sep) + (if 0 < i < n then [sep] else "")
    {
      StrStep(p.segments, i, sep, prefix, out);
      ghost var before := out;
      out := out + p.segments[i];
      if i + 1 < n {
        // '/' for a posix render, '\' for any other
        var c := if t == PosixPath then '/' else '\\';
        out := out + [c];
      } else {
        assert out == before + p.segments[i] + "";
      }
    }
    assert p.segments[..n] == p.segments;
  }

  /** Posix render/parse round trip. The empty relative path is excluded:
      it renders as "" and "" parses to one empty segment
      (see EmptyRelativePathReparses). */
  lemma PosixRoundTrip(p: Path, legacyMax: nat)
    requires p.kind == PosixPath && WellFormedSegments(p.segments, PosixPath)
    requires p.absolute || p.segments != []
    ensures Parse(Render(p, PosixPath, legacyMax), PosixPath) == p
  {
    var j := JoinWith(p.segments, '/');
    RunsOfJoin(p.segments, '/', POSIX_DELIMS);
    if p.absolute {
      assert Render(p, PosixPath, legacyMax) == [] + ['/'] + j;
      RunsSplit([], '/', j, POSIX_DELIMS);
    } else {
      JoinWithFront(p.segments, '/');
      assert p.segments[0][0] !in POSIX_DELIMS;
      assert j != [] && j[0] == p.segments[0][0];
      assert Render(p, PosixPath, legacyMax) == j;
      assert Parse(j, PosixPath) == Path(Runs(j, POSIX_DELIMS), false, PosixPath);
    }
  }

  lemma EmptyRelativePathReparses(legacyMax: nat)
    ensures Parse(Render(Path([], false, PosixPath), PosixPath, legacyMax), PosixPath)
            == Path([""], false, PosixPath)
  {
  }

  /** The join of well-formed Windows segments has a drive exactly when its
      first segment has one. */
  lemma JoinedDrive(segs: seq<string>)
    requires segs != [] && WellFormedSegments(segs, WindowsPath)
    ensures var j := JoinWith(segs, '\\');
            j != [] && j[0] == segs[0][0] && HasDrive(j) == HasDrive(segs[0])
  {
  }

  /** A string that does not start with a backslash keeps everything. */
  lemma NoPrefixToStrip(s: string)
    requires s != [] && s[0] != '\\'
    ensures StripLongPathPrefix(s) == s
  {
  }

  /** Windows round trip for a path whose render needs no long-path header:
      absolute exactly when its first segment carries a drive. */
  lemma WindowsRoundTrip(p: Path, legacyMax: nat)
    requires p.kind == WindowsPath && WellFormedSegments(p.segments, WindowsPath)
    requires p.segments != []
    requires p.absolute == HasDrive(p.segments[0])
    requires p.absolute ==> Weight(p.segments) <= legacyMax
    ensures Parse(Render(p, WindowsPath, legacyMax), WindowsPath) == p
  {
    var j := JoinWith(p.segments, '\\');
    assert RootPrefix(p, legacyMax) == "";
    assert Render(p, WindowsPath, legacyMax) == j;
    JoinedDrive(p.segments);
    assert p.segments[0][0] !in WINDOWS_DELIMS;
    NoPrefixToStrip(j);
    RunsOfJoin(p.segments, '\\', WINDOWS_DELIMS);
    assert Parse(j, WindowsPath) == Path(Runs(j, WINDOWS_DELIMS), HasDrive(j), WindowsPath);
  }

  /** A long absolute Windows path comes back relative, with a NUL at the
      head of its first segment: the header `str` writes is five characters
      long and `set` strips only four. */
  lemma LongWindowsPathLosesDrive(p: Path, legacyMax: nat)
    requires p.kind == WindowsPath && p.absolute
    requires Weight(p.segments) > legacyMax
    ensures var q := Parse(Render(p, WindowsPath, legacyMax), WindowsPath);
            !q.absolute && q.segments != [] && q.segments[0] != [] && q.segments[0][0] == '\0'
  {
  }

  // ---------------------------------------------------------------------
  // Path algebra
  // ---------------------------------------------------------------------

  /** The result of `a / b`, or the error it throws. */
  function Joined(a: Path, b: Path): Result<Path>
  {
    if b.absolute then Err(ExpectedRelative)
    else if a.kind != b.kind then Err(ExpectedSameType)
    else Ok(Path(a.segments + b.segments, a.absolute, a.kind))
  }

  /** `operator/`: a copy of `a` with `b`'s segments pushed onto it. */
  method Join(a: Path, b: Path) returns (r: Result<Path>)
    ensures r == Joined(a, b)
  {
    if b.absolute {
      return Err(ExpectedRelative);
    }
    if a.kind != b.kind {
      return Err(ExpectedSameType);
    }
    var result := a;
    for i := 0 to |b.segments|
      invariant result == Path(a.segments + b.segments[..i], a.absolute, a.kind)
    {
      assert b.segments[..i + 1] == b.segments[..i] + [b.segments[i]];
      result := result.(segments := result.segments + [b.segments[i]]);
    }
    assert b.segments[..|b.segments|] == b.segments;
    return Ok(result);
  }

  /** Joins compose: (a / b) / c == a / (b / c). */
  lemma JoinAssociative(a: Path, b: Path, c: Path)
    requires !b.absolute && !c.absolute && a.kind == b.kind == c.kind
    ensures Joined(a, b).Ok? && Joined(b, c).Ok?
    ensures Joined(Joined(a, b).value, c) == Joined(a, Joined(b, c).value)
  {
    assert (a.segments + b.segments) + c.segments == a.segments + (b.segments + c.segments);
  }

  /** Moving the parentheses across two separators. */
  lemma Regroup(x: string, c: char, y: string, z: string)
    ensures (x + [c] + y) + [c] + z == x + [c] + (y + [c] + z)
  {
  }

  /** Joining two non-empty segment lists puts exactly one separator
      between their joins. */
  lemma {:induction false} JoinWithAppend(s1: seq<string>, s2: seq<string>, sep: char)
    requires s1 != [] && s2 != []
    ensures JoinWith(s1 + s2, sep) == JoinWith(s1, sep) + [sep] + JoinWith(s2, sep)
    decreases |s2|
  {
    var s := s1 + s2;
    if |s2| == 1 {
      assert s[..|s| - 1] == s1;
    } else {
      var init, last := s2[..|s2| - 1], s2[|s2| - 1];
      assert s[..|s| - 1] == s1 + init && s[|s| - 1] == last;
      assert JoinWith(s, sep) == JoinWith(s1 + init, sep) + [sep] + last;
      assert JoinWith(s2, sep) == JoinWith(init, sep) + [sep] + last;
      JoinWithAppend(s1, init, sep);
      Regroup(JoinWith(s1, sep), sep, JoinWith(init, sep), last);
    }
  }

  /** Rendering a join puts one separator between the two renders (the
      left side must not be a Windows absolute path, whose long-path header
      depends on the total length). */
  lemma JoinRendersWithSeparator(a: Path, b: Path, t: PathType, legacyMax: nat)
    requires Joined(a, b).Ok?
    requires a.segments != [] && b.segments != []
    requires a.kind == PosixPath || !a.absolute
    ensures Render(Joined(a, b).value, t, legacyMax) ==
            Render(a, t, legacyMax) + [Separator(t)] + Render(b, t, legacyMax)
  {
    JoinWithAppend(a.segments, b.segments, Separator(t));
  }

  /** The path `parent_path()` returns. The result is a fresh path that only
      copies `m_absolute`, so its kind is the default one, not `p.kind`. */
  function Parent(p: Path, defaultKind: PathType): Path
  {
    var segments :=
      if p.segments == [] then (if p.absolute then [] else [".."])
      else p.segments[..|p.segments| - 1];
    Path(segments, p.absolute, defaultKind)
  }

  /** `parent_path()`. */
  method ParentPath(p: Path, defaultKind: PathType) returns (result: Path)
    ensures result == Parent(p, defaultKind)
  {
    result := Path([], p.absolute, defaultKind);
    if p.segments == [] {
      if !p.absolute {
        result := result.(segments := result.segments + [".."]);
      }
    } else {
      var until := |p.segments| - 1;
      for i := 0 to until
        invariant result == Path(p.segments[..i], p.absolute, defaultKind)
      {
        assert p.segments[..i + 1] == p.segments[..i] + [p.segments[i]];
        result := result.(segments := result.segments + [p.segments[i]]);
      }
    }
  }

  /** Above the root there is nothing: the empty absolute path is its own
      parent. */
  lemma ParentOfRootIsRoot(k: PathType)
    ensures Parent(Path([], true, k), k) == Path([], true, k)
  {
  }

  /** The empty relative path goes up to "..", and ".." goes back to the
      empty path: the parent is lexical only. */
  lemma ParentOfEmptyRelative(k: PathType)
    ensures Parent(Path([], false, k), k) == Path([".."], false, k)
    ensures Parent(Parent(Path([], false, k), k), k) == Path([], false, k)
  {
  }

  /** `parent_path` applied n times. */
  function Ancestor(p: Path, n: nat, defaultKind: PathType): Path
  {
    if n == 0 then p else Parent(Ancestor(p, n - 1, defaultKind), defaultKind)
  }

  /** Going up n levels drops the last n segments; an absolute path stops at
      the root and stays there however often it is asked again. */
  lemma {:induction false} AncestorDropsSegments(p: Path, n: nat, defaultKind: PathType)
    requires 0 < n
    requires p.absolute || n <= |p.segments|
    ensures var a := Ancestor(p, n, defaultKind);
            a.absolute == p.absolute && a.kind == defaultKind &&
            a.segments == if n <= |p.segments| then p.segments[..|p.segments| - n] else []
  {
    if n > 1 {
      AncestorDropsSegments(p, n - 1, defaultKind);
      var a := Ancestor(p, n - 1, defaultKind);
      if n <= |p.segments| {
        assert a.segments[..|a.segments| - 1] == p.segments[..|p.segments| - n];
      }
    }
  }

  /** The last segment, or "" for a path without segments. */
  function Filename(p: Path): (r: string)
    ensures p.segments == [] ==> r == ""
    ensures p.segments != [] ==> p.segments == p.segments[..|p.segments| - 1] + [r]
  {
    if p.segments == [] then "" else p.segments[|p.segments| - 1]
  }

  /** `filename()` of a join is the right side's, unless that has no
      segments. */
  lemma FilenameOfJoin(a: Path, b: Path)
    requires Joined(a, b).Ok?
    ensures Filename(Joined(a, b).value) == if b.segments == [] then Filename(a) else Filename(b)
  {
  }

  /** Parent and filename split a non-empty path, and joining them rebuilds
      it when the parent's default kind is the path's own. */
  lemma ParentJoinFilename(p: Path, defaultKind: PathType)
    requires p.segments != [] && p.kind == defaultKind
    ensures Joined(Parent(p, defaultKind), Path([Filename(p)], false, defaultKind)) == Ok(p)
  {
    var n := |p.segments|;
    assert p.segments[..n - 1] + [p.segments[n - 1]] == p.segments;
  }

  /** Joining one relative segment and then taking the parent gives the
      path back, when the default kind is the path's own. */
  lemma ParentUndoesJoin(p: Path, x: string)
    ensures Joined(p, Path([x], false, p.kind)).Ok?
    ensures Parent(Joined(p, Path([x], false, p.kind)).value, p.kind) == p
  {
    assert (p.segments + [x])[..|p.segments|] == p.segments;
  }

  /** Under another default kind the rebuilt path has a different kind. */
  lemma ParentChangesKind(p: Path, defaultKind: PathType)
    requires p.segments != [] && p.kind != defaultKind
    ensures Joined(Parent(p, defaultKind), Path([Filename(p)], false, defaultKind)).value != p
  {
  }

  /** `find_last_of(c)`: the last position holding `c`, or NPOS. */
  function LastIndexOf(s: string, c: char): (pos: int)
    ensures pos == NPOS || (0 <= pos < |s| && s[pos] == c)
    ensures forall j :: pos < j < |s| ==> s[j] != c
  {
    if s == [] then NPOS
    else if s[|s| - 1] == c then |s| - 1
    else LastIndexOf(s[..|s| - 1], c)
  }

  /** `extension()`: the text after the last '.' of the filename, or "" when
      it has no dot. */
  function Extension(p: Path): (ext: string)
    ensures '.' !in ext
    ensures '.' !in Filename(p) ==> ext == ""
    ensures '.' in Filename(p) ==>
              var name := Filename(p);
              |ext| < |name| && name[|name| - |ext| - 1] == '.' && name[|name| - |ext|..] == ext
  {
    var name := Filename(p);
    var pos := LastIndexOf(name, '.');
    if pos == NPOS then "" else name[pos + 1..]
  }

  /** A name ending in a dot and dot-free text has that text as its
      extension, whatever the part before the dot holds. */
  lemma ExtensionAfterLastDot(p: Path, base: string, ext: string)
    requires p.segments != [] && p.segments[|p.segments| - 1] == base + "." + ext
    requires '.' !in ext
    ensures Extension(p) == ext
  {
    var name := base + "." + ext;
    var pos := LastIndexOf(name, '.');
    assert name[|base|] == '.';
    forall j | |base| < j < |name| ensures name[j] != '.' {
      assert name[j] == ext[j - |base| - 1];
    }
    assert pos == |base|;
    assert name[pos + 1..] == ext;
  }

  /** Last-dot semantics on a few names. */
  lemma ExtensionOfArchive()
    ensures Extension(Path(["archive.tar.gz"], false, PosixPath)) == "gz"
  {
    assert "archive.tar.gz" == "archive.tar" + "." + "gz";
    ExtensionAfterLastDot(Path(["archive.tar.gz"], false, PosixPath), "archive.tar", "gz");
  }

  lemma ExtensionOfDotfile()
    ensures Extension(Path([".gitignore"], false, PosixPath)) == "gitignore"
  {
    assert ".gitignore" == "" + "." + "gitignore";
    ExtensionAfterLastDot(Path([".gitignore"], false, PosixPath), "", "gitignore");
  }

  lemma ExtensionOfTrailingDot()
    ensures Extension(Path(["name."], false, PosixPath)) == ""
  {
    assert "name." == "name" + "." + "";
    ExtensionAfterLastDot(Path(["name."], false, PosixPath), "name", "");
  }

  lemma ExtensionWithoutDot()
    ensures Extension(Path(["noext"], false, PosixPath)) == ""
    ensures Extension(Path([], false, PosixPath)) == ""
  {
    assert '.' !in "noext";
  }
}
