// String and directory helpers shared by the broker (mqcommon/helper.hpp).
module Helper {
  import opened Wrappers

  // ---------------------------------------------------------------------------
  // string_helper::split: boost::split with token_compress_on.
  // ---------------------------------------------------------------------------

  /** The pieces of `s` when every character of `sep` is a separator and a run of
      adjacent separators cuts only once.  Defined left to right, one character
      at a time; an empty string gives a single empty piece. */
  function Split(s: string, sep: set<char>): (r: seq<string>)
    ensures |r| >= 1
    decreases |s|
  {
    if |s| == 0 then [""]
    else ScanChar(Split(s[..|s| - 1], sep), s[|s| - 1], |s| >= 2 && s[|s| - 2] in sep, sep)
  }

  /** One step of the scan: a non-separator extends the last piece; the first
      separator of a run starts a new, empty piece; later ones do nothing. */
  function ScanChar(p: seq<string>, c: char, afterSeparator: bool, sep: set<char>): (r: seq<string>)
    requires |p| >= 1
    ensures |r| >= 1
  {
    if c !in sep then p[..|p| - 1] + [p[|p| - 1] + [c]]
    else if afterSeparator then p
    else p + [""]
  }

  /** Number of maximal runs of separator characters in `s`. */
  function SeparatorRuns(s: string, sep: set<char>): nat
    decreases |s|
  {
    if |s| == 0 then 0
    else
      var n := SeparatorRuns(s[..|s| - 1], sep);
      if s[|s| - 1] in sep && (|s| == 1 || s[|s| - 2] !in sep) then n + 1 else n
  }

  /** The characters of `s` that are not separators, in order. */
  function WithoutSeparators(s: string, sep: set<char>): string
    decreases |s|
  {
    if |s| == 0 then ""
    else
      var w := WithoutSeparators(s[..|s| - 1], sep);
      if s[|s| - 1] in sep then w else w + [s[|s| - 1]]
  }

  function Concat(pieces: seq<string>): string
  {
    if |pieces| == 0 then "" else Concat(pieces[..|pieces| - 1]) + pieces[|pieces| - 1]
  }

  /** One piece per separator run, plus one. */
  lemma {:induction false} SplitCount(s: string, sep: set<char>)
    ensures |Split(s, sep)| == SeparatorRuns(s, sep) + 1
    decreases |s|
  {
    if |s| > 0 {
      SplitCount(s[..|s| - 1], sep);
    }
  }

  /** No piece contains a separator. */
  lemma {:induction false} SplitPiecesHaveNoSeparator(s: string, sep: set<char>)
    ensures forall i, j :: 0 <= i < |Split(s, sep)| && 0 <= j < |Split(s, sep)[i]| ==> Split(s, sep)[i][j] !in sep
    decreases |s|
  {
    if |s| > 0 {
      var t := s[..|s| - 1];
      SplitPiecesHaveNoSeparator(t, sep);
      var p := Split(t, sep);
      var c := s[|s| - 1];
      var r := Split(s, sep);
      if c !in sep {
        forall i, j | 0 <= i < |r| && 0 <= j < |r[i]| ensures r[i][j] !in sep {
          if i < |p| - 1 {
            assert r[i] == p[i];
          } else if j < |p[|p| - 1]| {
            assert r[i][j] == p[|p| - 1][j];
          }
        }
      }
    }
  }

  /** No character other than a separator is lost: the pieces concatenate to `s`
      with its separators removed. */
  lemma {:induction false} SplitKeepsCharacters(s: string, sep: set<char>)
    ensures Concat(Split(s, sep)) == WithoutSeparators(s, sep)
    decreases |s|
  {
    if |s| > 0 {
      SplitKeepsCharacters(s[..|s| - 1], sep);
      KeepsCharactersStep(s, sep);
    }
  }

  /** One more character adds itself to the concatenated pieces, unless it is a
      separator. */
  lemma KeepsCharactersStep(s: string, sep: set<char>)
    requires |s| > 0
    ensures Concat(Split(s, sep))
         == Concat(Split(s[..|s| - 1], sep)) + (if s[|s| - 1] in sep then "" else [s[|s| - 1]])
  {
    var p := Split(s[..|s| - 1], sep);
    var c := s[|s| - 1];
    assert Split(s, sep) == ScanChar(p, c, |s| >= 2 && s[|s| - 2] in sep, sep);
    if c !in sep {
      var init, last := p[..|p| - 1], p[|p| - 1];
      assert Concat(p) == Concat(init) + last by {
        assert p == init + [last];
        ConcatLast(init, last);
      }
      ConcatLast(init, last + [c]);
    } else if !(|s| >= 2 && s[|s| - 2] in sep) {
      ConcatLast(p, "");
    }
  }

  lemma ConcatLast(init: seq<string>, last: string)
    ensures Concat(init + [last]) == Concat(init) + last
  {
    assert (init + [last])[..|init + [last]| - 1] == init;
  }

  /** Split after appending one character, in terms of the split before it. */
  lemma SplitStep(t: string, x: char, sep: set<char>)
    ensures Split(t + [x], sep) == ScanChar(Split(t, sep), x, |t| >= 1 && t[|t| - 1] in sep, sep)
  {
    assert (t + [x])[..|t|] == t;
  }

  /** The scan step on pieces `done` then `cur`. */
  lemma ScanCharLast(done: seq<string>, cur: string, c: char, b: bool, sep: set<char>)
    ensures ScanChar(done + [cur], c, b, sep)
         == if c !in sep then done + [cur + [c]] else if b then done + [cur] else done + [cur] + [""]
  {
    assert (done + [cur])[..|done|] == done;
  }

  /** The scan step only looks at the last piece. */
  lemma ScanCharPrefix(a: seq<string>, p: seq<string>, x: char, b: bool, sep: set<char>)
    requires |p| >= 1
    ensures ScanChar(a + p, x, b, sep) == a + ScanChar(p, x, b, sep)
  {
    assert (a + p)[..|a + p| - 1] == a + p[..|p| - 1];
  }

  /** Pieces strictly between the first and the last are never empty, and the last
      piece is empty exactly when `s` is empty or ends with a separator. */
  lemma {:induction false} SplitEmptyPieces(s: string, sep: set<char>)
    ensures forall i :: 0 < i < |Split(s, sep)| - 1 ==> Split(s, sep)[i] != ""
    ensures Split(s, sep)[|Split(s, sep)| - 1] == "" <==> |s| == 0 || s[|s| - 1] in sep
    decreases |s|
  {
    if |s| > 0 {
      var t := s[..|s| - 1];
      SplitEmptyPieces(t, sep);
      if |t| > 0 {
        assert t[|t| - 1] == s[|s| - 2];
      }
    }
  }

  /** A string without separators is its own single piece. */
  lemma {:induction false} SplitNoSeparator(s: string, sep: set<char>)
    requires forall i :: 0 <= i < |s| ==> s[i] !in sep
    ensures Split(s, sep) == [s]
    decreases |s|
  {
    if |s| > 0 {
      SplitNoSeparator(s[..|s| - 1], sep);
      assert s[..|s| - 1] + [s[|s| - 1]] == s;
    }
  }

  /** A word, one separator, and a rest that does not start with a separator:
      the word is the first piece and the rest is split on its own. */
  lemma {:induction false} SplitWord(w: string, c: char, rest: string, sep: set<char>)
    requires forall i :: 0 <= i < |w| ==> w[i] !in sep
    requires c in sep
    requires |rest| == 0 || rest[0] !in sep
    ensures Split(w + [c] + rest, sep) == [w] + Split(rest, sep)
    decreases |rest|
  {
    if |rest| == 0 {
      assert w + [c] + rest == w + [c];
      SplitStep(w, c, sep);
      SplitNoSeparator(w, sep);
    } else {
      var rest', x := rest[..|rest| - 1], rest[|rest| - 1];
      assert rest == rest' + [x];
      assert w + [c] + rest == (w + [c] + rest') + [x];
      SplitWord(w, c, rest', sep);
      SplitWordStep(w, c, rest', x, sep);
    }
  }

  lemma SplitWordStep(w: string, c: char, rest': string, x: char, sep: set<char>)
    requires c in sep
    requires |rest'| == 0 ==> x !in sep
    requires Split(w + [c] + rest', sep) == [w] + Split(rest', sep)
    ensures Split((w + [c] + rest') + [x], sep) == [w] + Split(rest' + [x], sep)
  {
    var t := w + [c] + rest';
    SplitStep(t, x, sep);
    SplitStep(rest', x, sep);
    if |rest'| > 0 {
      assert t[|t| - 1] == rest'[|rest'| - 1];
    }
    ScanCharPrefix([w], Split(rest', sep), x, |rest'| >= 1 && rest'[|rest'| - 1] in sep, sep);
  }

  /** string_helper::split fills `out` with the pieces and returns how many it
      wrote.  The loop stands for the scan boost::split performs. */
  method SplitInto(str: string, sep: set<char>) returns (out: seq<string>, n: nat)
    ensures out == Split(str, sep)
    ensures n == |out|
  {
    var done: seq<string> := [];
    var cur: string := "";
    var i := 0;
    while i < |str|
      invariant 0 <= i <= |str|
      invariant done + [cur] == Split(str[..i], sep)
    {
      var c := str[i];
      assert str[..i + 1] == str[..i] + [c];
      SplitStep(str[..i], c, sep);
      ScanCharLast(done, cur, c, i >= 1 && str[i - 1] in sep, sep);
      if c !in sep {
        cur := cur + [c];
      } else if !(i >= 1 && str[i - 1] in sep) {
        done := done + [cur];
        cur := "";
      }
      i := i + 1;
    }
    assert str[..i] == str;
    out := done + [cur];
    n := |out|;
  }

  // ---------------------------------------------------------------------------
  // file_helper::parent_dir and file_helper::create_dir
  // ---------------------------------------------------------------------------

  /** std::string::find_last_of for one character. */
  function FindLast(s: string, c: char): (r: Option<nat>)
    ensures r.None? <==> c !in s
    ensures r.Some? ==> r.value < |s| && s[r.value] == c && c !in s[r.value + 1..]
    decreases |s|
  {
    if |s| == 0 then None
    else if s[|s| - 1] == c then Some(|s| - 1)
    else
      var r := FindLast(s[..|s| - 1], c);
      assert s[..|s| - 1] + [s[|s| - 1]] == s;
      r
  }

  /** std::string::find for one character, starting the search at `from`. */
  function FindFrom(s: string, c: char, from: nat): (r: Option<nat>)
    requires from <= |s|
    ensures r.None? ==> c !in s[from..]
    ensures r.Some? ==> from <= r.value < |s| && s[r.value] == c && c !in s[from..r.value]
    decreases |s| - from
  {
    if from == |s| then None
    else if s[from] == c then Some(from)
    else
      var r := FindFrom(s, c, from + 1);
      assert s[from..] == [s[from]] + s[from + 1..];
      r
  }

  /** The directory part of a path: everything before the last '/', or "./" when
      there is no '/'. */
  function ParentDir(name: string): (r: string)
    ensures '/' !in name ==> r == "./"
    ensures '/' in name ==> |r| < |name| && r == name[..|r|] && name[|r|] == '/' && '/' !in name[|r| + 1..]
  {
    match FindLast(name, '/')
    case None => "./"
    case Some(pos) => name[..pos]
  }

  /** What mkdir(2) reports for one directory. */
  datatype MkdirOutcome = Created | AlreadyExists | Failed

  /** The prefixes of `s` that end just before a '/', shortest first. */
  function SlashPrefixes(s: string): seq<string>
    decreases |s|
  {
    if |s| == 0 then []
    else SlashPrefixes(s[..|s| - 1]) + (if s[|s| - 1] == '/' then [s[..|s| - 1]] else [])
  }

  /** The directories create_dir asks mkdir for, in order: every prefix ending at a
      '/', then the whole path unless it is empty or ends with '/'. */
  function MkdirPlan(path: string): seq<string>
  {
    SlashPrefixes(path) + (if |path| > 0 && path[|path| - 1] != '/' then [path] else [])
  }

  /** The plan cut just after the first directory whose mkdir fails. */
  function ThroughFirstFailure(plan: seq<string>, mkdir: string -> MkdirOutcome): seq<string>
  {
    if |plan| == 0 then []
    else if mkdir(plan[0]) == Failed then [plan[0]]
    else [plan[0]] + ThroughFirstFailure(plan[1..], mkdir)
  }

  lemma {:induction false} SlashPrefixesNoSlash(s: string, t: string)
    requires '/' !in t
    ensures SlashPrefixes(s + t) == SlashPrefixes(s)
    decreases |t|
  {
    if |t| > 0 {
      assert (s + t)[..|s + t| - 1] == s + t[..|t| - 1];
      assert t[|t| - 1] in t;
      SlashPrefixesNoSlash(s, t[..|t| - 1]);
    } else {
      assert s + t == s;
    }
  }

  lemma {:induction false} SlashPrefixesGrow(s: string, k: nat)
    requires k <= |s|
    ensures SlashPrefixes(s[..k]) <= SlashPrefixes(s)
    decreases |s| - k
  {
    if k < |s| {
      SlashPrefixesGrow(s, k + 1);
      assert s[..k + 1][..k] == s[..k];
    } else {
      assert s[..k] == s;
    }
  }

  lemma {:induction false} ThroughFirstFailureSkips(done: seq<string>, rest: seq<string>, mkdir: string -> MkdirOutcome)
    requires forall i :: 0 <= i < |done| ==> mkdir(done[i]) != Failed
    ensures ThroughFirstFailure(done + rest, mkdir) == done + ThroughFirstFailure(rest, mkdir)
    decreases |done|
  {
    if |done| > 0 {
      assert (done + rest)[1..] == done[1..] + rest;
      ThroughFirstFailureSkips(done[1..], rest, mkdir);
    } else {
      assert done + rest == rest;
    }
  }

  lemma CreateDirFinalName(path: string, idx: nat, calls: seq<string>, mkdir: string -> MkdirOutcome)
    requires idx < |path| && '/' !in path[idx..]
    requires calls == SlashPrefixes(path[..idx])
    requires forall i :: 0 <= i < |calls| ==> mkdir(calls[i]) != Failed
    ensures SlashPrefixes(path) == calls
    ensures ThroughFirstFailure(MkdirPlan(path), mkdir) == calls + [path]
  {
    LastCharAfterSlash(path, idx);
    ThroughFirstFailureSkips(calls, [path], mkdir);
    assert ThroughFirstFailure([path], mkdir) == [path] by {
      assert [path][0] == path && [path][1..] == [];
    }
  }

  lemma LastCharAfterSlash(path: string, idx: nat)
    requires idx < |path| && '/' !in path[idx..]
    ensures SlashPrefixes(path) == SlashPrefixes(path[..idx])
    ensures MkdirPlan(path) == SlashPrefixes(path[..idx]) + [path]
  {
    assert path == path[..idx] + path[idx..];
    assert path[idx..][|path| - 1 - idx] == path[|path| - 1];
    SlashPrefixesNoSlash(path[..idx], path[idx..]);
  }

  lemma CreateDirStep(path: string, idx: nat, pos: nat, calls: seq<string>)
    requires idx <= pos < |path| && path[pos] == '/' && '/' !in path[idx..pos]
    requires calls == SlashPrefixes(path[..idx])
    ensures SlashPrefixes(path[..pos + 1]) == calls + [path[..pos]]
    ensures calls + [path[..pos]] <= MkdirPlan(path)
  {
    assert path[..pos] == path[..idx] + path[idx..pos];
    SlashPrefixesNoSlash(path[..idx], path[idx..pos]);
    assert path[..pos + 1][..pos] == path[..pos];
    SlashPrefixesGrow(path, pos + 1);
  }

  lemma CreateDirFailure(path: string, calls: seq<string>, mkdir: string -> MkdirOutcome)
    requires calls != [] && calls <= MkdirPlan(path)
    requires forall i :: 0 <= i < |calls| - 1 ==> mkdir(calls[i]) != Failed
    requires mkdir(calls[|calls| - 1]) == Failed
    ensures ThroughFirstFailure(MkdirPlan(path), mkdir) == calls
  {
    var plan := MkdirPlan(path);
    var k := |calls| - 1;
    assert plan == calls[..k] + plan[k..];
    ThroughFirstFailureSkips(calls[..k], plan[k..], mkdir);
    assert calls[..k] + [calls[k]] == calls;
  }

  /** file_helper::create_dir: make every directory on `path`, outermost first.  An
      intermediate directory that already exists is fine; any other failure stops the
      walk.  The last component, if any, must be newly created.  `mkdir` stands for
      the operating system call; `calls` are the directories asked for. */
  method CreateDir(path: string, mkdir: string -> MkdirOutcome) returns (ok: bool, calls: seq<string>)
    ensures calls == ThroughFirstFailure(MkdirPlan(path), mkdir)
    ensures ok <==> (forall d :: d in SlashPrefixes(path) ==> mkdir(d) != Failed)
                    && (|path| > 0 && path[|path| - 1] != '/' ==> mkdir(path) == Created)
  {
    var idx := 0;
    calls := [];
    while idx < |path|
      invariant idx <= |path|
      invariant idx == 0 || path[idx - 1] == '/'
      invariant calls == SlashPrefixes(path[..idx])
      invariant forall i :: 0 <= i < |calls| ==> mkdir(calls[i]) != Failed
      decreases |path| - idx
    {
      var found := FindFrom(path, '/', idx);
      if found.None? {
        CreateDirFinalName(path, idx, calls, mkdir);
        calls := calls + [path];
        ok := mkdir(path) == Created;
        return;
      }
      var pos := found.value;
      var sub := path[..pos];
      CreateDirStep(path, idx, pos, calls);
      calls := calls + [sub];
      if mkdir(sub) == Failed {
        CreateDirFailure(path, calls, mkdir);
        SlashPrefixesGrow(path, pos + 1);
        assert sub in SlashPrefixes(path[..pos + 1]);
        ok := false;
        return;
      }
      idx := pos + 1;
    }
    assert path[..idx] == path;
    ThroughFirstFailureSkips(calls, [], mkdir);
    assert calls + [] == calls;
    ok := true;
  }

  // ---------------------------------------------------------------------------
  // map_helper: protobuf Map <-> std::unordered_map
  // ---------------------------------------------------------------------------

  /** Both directions of map_helper copy every key/value pair into a fresh map; the
      model represents the protobuf map and the standard map by the same type. */
  method ConvertMap(source: map<string, string>) returns (target: map<string, string>)
    ensures target == source
  {
    target := map[];
    var rest := source.Keys;
    while rest != {}
      invariant rest <= source.Keys
      invariant target.Keys == source.Keys - rest
      invariant forall k :: k in target ==> target[k] == source[k]
      decreases rest
    {
      var k :| k in rest;
      target := target[k := source[k]];
      rest := rest - {k};
    }
  }
}
