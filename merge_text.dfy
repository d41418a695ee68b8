/** Text preparation for the synthesis corpus: each transcript line is
    reduced to its text, cleaned of punctuation, converted to pinyin and
    paired with the path of the numbered audio clip it belongs to. */
module MergeText {
  import opened PyStr

  /** The eleven characters that punctuation removal turns into spaces:
      six full-width ones (comma, ideographic full stop, question mark,
      enumeration comma, semicolon, colon) and their five ASCII cousins. */
  predicate IsPunct(c: char)
  {
    c == '\U{FF0C}' || c == '\U{3002}' || c == '\U{FF1F}' || c == '\U{3001}'
    || c == '\U{FF1B}' || c == '\U{FF1A}'
    || c == ',' || c == '.' || c == '?' || c == ';' || c == ':'
  }

  /** `s.replace(a, b)` for one-character a and b: every a becomes b. */
  function ReplaceChar(s: string, a: char, b: char): (r: string)
    ensures |r| == |s|
    ensures forall k :: 0 <= k < |s| ==> r[k] == (if s[k] == a then b else s[k])
  {
    if s == [] then [] else [if s[0] == a then b else s[0]] + ReplaceChar(s[1..], a, b)
  }

  /** `remove_punctuation`: the eleven `replace` calls in the source's
      order, each turning one punctuation character into a space. */
  function RemovePunctuation(line: string): (r: string)
    ensures |r| == |line|
    ensures forall k :: 0 <= k < |line| ==> r[k] == (if IsPunct(line[k]) then ' ' else line[k])
  {
    var l1 := ReplaceChar(line, '\U{FF0C}', ' ');
    var l2 := ReplaceChar(l1, '\U{3002}', ' ');
    var l3 := ReplaceChar(l2, '\U{FF1F}', ' ');
    var l4 := ReplaceChar(l3, '\U{3001}', ' ');
    var l5 := ReplaceChar(l4, '\U{FF1B}', ' ');
    var l6 := ReplaceChar(l5, '\U{FF1A}', ' ');
    var l7 := ReplaceChar(l6, ',', ' ');
    var l8 := ReplaceChar(l7, '.', ' ');
    var l9 := ReplaceChar(l8, '?', ' ');
    var l10 := ReplaceChar(l9, ';', ' ');
    ReplaceChar(l10, ':', ' ')
  }

  /** One character after punctuation removal. */
  function Blank(c: char): char
  {
    if IsPunct(c) then ' ' else c
  }

  /** Punctuation removal stated character by character. */
  function BlankPunctuation(line: string): (r: string)
    ensures |r| == |line|
  {
    if line == [] then [] else [Blank(line[0])] + BlankPunctuation(line[1..])
  }

  lemma {:induction false} BlankPunctuationAt(line: string)
    ensures forall k :: 0 <= k < |line| ==> BlankPunctuation(line)[k] == Blank(line[k])
  {
    if line != [] {
      BlankPunctuationAt(line[1..]);
    }
  }

  /** The chain of replacements is a character-for-character map: each
      punctuation character becomes one space, everything else stays, and
      the length is unchanged. */
  lemma RemovePunctuationBlanks(line: string)
    ensures RemovePunctuation(line) == BlankPunctuation(line)
  {
    var r, b := RemovePunctuation(line), BlankPunctuation(line);
    BlankPunctuationAt(line);
    assert forall k :: 0 <= k < |line| ==> r[k] == b[k];
  }

  /** No punctuation survives. */
  lemma PunctuationGone(line: string)
    ensures forall k :: 0 <= k < |line| ==> !IsPunct(RemovePunctuation(line)[k])
  {
  }

  /** Removing punctuation a second time changes nothing. */
  lemma RemovePunctuationIdempotent(line: string)
    ensures RemovePunctuation(RemovePunctuation(line)) == RemovePunctuation(line)
  {
    var r := RemovePunctuation(line);
    assert forall k :: 0 <= k < |r| ==> RemovePunctuation(r)[k] == r[k];
  }

  /** `f[-4:] == ".txt"`: a name shorter than four characters is its own
      last four and so never matches. */
  predicate IsTxtName(f: string)
  {
    |f| >= 4 && f[|f| - 4..] == ".txt"
  }

  /** `filter(lambda f: f[-4:] == ".txt", files)`, order kept. */
  function TxtNames(names: seq<string>): (r: seq<string>)
    ensures forall f :: multiset(r)[f] == (if IsTxtName(f) then multiset(names)[f] else 0)
  {
    if names == [] then []
    else
      assert names == [names[0]] + names[1..];
      (if IsTxtName(names[0]) then [names[0]] else []) + TxtNames(names[1..])
  }

  /** `os.path.join(a, b)` for two POSIX path components. */
  function PathJoin(a: string, b: string): string
  {
    if b != [] && b[0] == '/' then b
    else if a == [] || a[|a| - 1] == '/' then a + b
    else a + "/" + b
  }

  /** `map(lambda f: os.path.join(wave_dir, f), files)`. */
  function JoinAll(dir: string, names: seq<string>): (r: seq<string>)
    ensures |r| == |names|
    ensures forall k :: 0 <= k < |names| ==> r[k] == PathJoin(dir, names[k])
  {
    if names == [] then [] else [PathJoin(dir, names[0])] + JoinAll(dir, names[1..])
  }

  /** The filter keeps exactly the `.txt` names. */
  lemma TxtNamesMembers(names: seq<string>)
    ensures forall f :: f in TxtNames(names) <==> f in names && IsTxtName(f)
  {
    forall f ensures f in TxtNames(names) <==> f in names && IsTxtName(f) {
      assert f in TxtNames(names) <==> f in multiset(TxtNames(names));
      assert f in names <==> f in multiset(names);
    }
  }

  /** Each joined path comes from one of the names, and each name gives one. */
  lemma JoinAllMembers(dir: string, names: seq<string>)
    ensures forall p :: p in JoinAll(dir, names) <==> exists f :: f in names && p == PathJoin(dir, f)
  {
    var r := JoinAll(dir, names);
    forall p ensures p in r <==> exists f :: f in names && p == PathJoin(dir, f) {
      if p in r {
        var k :| 0 <= k < |r| && r[k] == p;
        assert names[k] in names && p == PathJoin(dir, names[k]);
      }
      if exists f :: f in names && p == PathJoin(dir, f) {
        var f :| f in names && p == PathJoin(dir, f);
        var k :| 0 <= k < |names| && names[k] == f;
        assert r[k] == p;
      }
    }
  }

  /** `get_text_files` over the directory's listing: the `.txt` names, each
      joined to the directory, in ascending string order. */
  function GetTextFiles(dir: string, listing: seq<string>): (r: seq<string>)
    ensures Sorted(r)
    ensures forall p :: p in r <==> exists f :: f in listing && IsTxtName(f) && p == PathJoin(dir, f)
    ensures |r| == |TxtNames(listing)|
  {
    var txt := TxtNames(listing);
    var paths := JoinAll(dir, txt);
    SortMembers(paths);
    TxtNamesMembers(listing);
    JoinAllMembers(dir, txt);
    Sort(paths)
  }

  /** `"".join(line.split(".")[1:])`, then `strip()`, then punctuation
      removal: the text that goes to pinyin conversion. */
  function CleanText(line: string): string
  {
    BlankPunctuation(Strip(Concat(SplitOn(line, '.')[1..])))
  }

  /** The cleaned text is what follows the first '.', with every later '.'
      deleted, whitespace stripped and punctuation blanked; a line with no
      '.' has empty text. */
  lemma CleanTextShape(line: string)
    ensures Free(line, '.') ==> CleanText(line) == []
    ensures !Free(line, '.') ==>
      CleanText(line) == BlankPunctuation(Strip(RemoveAll(line[Find(line, '.') + 1..], '.')))
  {
    var inner := Concat(SplitOn(line, '.')[1..]);
    assert CleanText(line) == BlankPunctuation(Strip(inner));
    AfterFirstSeparator(line, '.');
    var i := Find(line, '.');
    if i == |line| {
      assert line[..i] == line;
      assert Strip(inner) == [] by { assert StripLeft([]) == []; }
    } else {
      assert line[i] == '.';
      assert inner == RemoveAll(line[i + 1..], '.');
    }
  }

  /** No punctuation, and so no '.', is left in the cleaned text. */
  lemma CleanTextHasNoPunctuation(line: string)
    ensures forall k :: 0 <= k < |CleanText(line)| ==>
      !IsPunct(CleanText(line)[k]) && CleanText(line)[k] != '.'
  {
    BlankPunctuationAt(Strip(Concat(SplitOn(line, '.')[1..])));
  }

  /** `origin.split("/")[-1][:-4]`: the basename without its last four
      characters (empty when the basename is shorter). */
  function DropLast4(s: string): (r: string)
    ensures |s| >= 4 ==> r + s[|s| - 4..] == s
    ensures |s| < 4 ==> r == []
  {
    if |s| >= 4 then s[..|s| - 4] else []
  }

  function AudioPrefix(origin: string): string
  {
    DropLast4(Last(SplitOn(origin, '/'))) + "_mono_16000"
  }

  /** For a transcript found by GetTextFiles, the clip prefix is the file
      name without ".txt", followed by "_mono_16000". */
  lemma AudioPrefixOfTextFile(dir: string, f: string)
    requires IsTxtName(f) && Free(f, '/')
    ensures AudioPrefix(PathJoin(dir, f)) == f[..|f| - 4] + "_mono_16000"
  {
    assert f[0] != '/';
    if dir == [] {
      assert PathJoin(dir, f) == f;
    } else if dir[|dir| - 1] == '/' {
      assert PathJoin(dir, f) == dir[..|dir| - 1] + ['/'] + f;
      LastPieceAfterSeparator(dir[..|dir| - 1], f, '/');
    } else {
      assert PathJoin(dir, f) == dir + ['/'] + f;
      LastPieceAfterSeparator(dir, f, '/');
    }
  }

  /** "audio_material/data/audio/%s_%03d.wav|%s" */
  function OutputLine(prefix: string, k: nat, text: string): string
  {
    "audio_material/data/audio/" + prefix + "_" + Pad3(k) + ".wav|" + text
  }

  /** `generate_text_file` over the transcript's lines (each with its line
      break, as `readlines` gives them); `pinyin` stands for
      `convert_pinyin`. Line k names clip k. */
  method GenerateTextFile(origin: string, lines: seq<string>, pinyin: string -> string)
    returns (out: seq<string>)
    ensures |out| == |lines|
    ensures forall k :: 0 <= k < |lines| ==>
      out[k] == OutputLine(AudioPrefix(origin), k, pinyin(CleanText(lines[k])))
  {
    var prefix := DropLast4(Last(SplitOn(origin, '/'))) + "_mono_16000";
    out := [];
    var i := 0;
    while i < |lines|
      invariant i == |out| <= |lines|
      invariant forall k :: 0 <= k < i ==>
        out[k] == OutputLine(prefix, k, pinyin(CleanText(lines[k])))
    {
      var line := Concat(SplitOn(lines[i], '.')[1..]);
      line := Strip(line);
      RemovePunctuationBlanks(line);
      line := RemovePunctuation(line);
      line := pinyin(line);
      var newLine := "audio_material/data/audio/" + prefix + "_" + Pad3(i) + ".wav|" + line;
      assert newLine == OutputLine(prefix, i, pinyin(CleanText(lines[i])));
      out := out + [newLine];
      i := i + 1;
    }
  }

  /** A run of digits is pinned down by the non-digit that follows it. */
  lemma DigitRun(d1: string, r1: string, d2: string, r2: string)
    requires forall t :: 0 <= t < |d1| ==> IsDigit(d1[t])
    requires forall t :: 0 <= t < |d2| ==> IsDigit(d2[t])
    requires r1 != [] && !IsDigit(r1[0]) && r2 != [] && !IsDigit(r2[0])
    requires d1 + r1 == d2 + r2
    ensures d1 == d2
  {
    var s := d1 + r1;
    assert s[|d1|] == r1[0] && (d2 + r2)[|d2|] == r2[0];
    assert forall t :: 0 <= t < |d1| ==> IsDigit(s[t]);
    assert forall t :: 0 <= t < |d2| ==> IsDigit((d2 + r2)[t]);
    assert |d1| == |d2|;
    assert d1 == s[..|d1|] && d2 == (d2 + r2)[..|d2|];
  }

  /** An output line is its fixed head, then the clip number, then the rest. */
  lemma OutputLineParts(prefix: string, k: nat, text: string)
    ensures OutputLine(prefix, k, text)
      == ("audio_material/data/audio/" + prefix + "_") + (Pad3(k) + (".wav|" + text))
  {
  }

  /** Equal strings with a common head agree after it. */
  lemma CancelHead(head: string, a: string, b: string)
    requires head + a == head + b
    ensures a == b
  {
    assert a == (head + a)[|head|..];
    assert b == (head + b)[|head|..];
  }

  /** Lines of one transcript never collide: each carries its own clip
      number, and the number reads back from the line. */
  lemma OutputLinesDistinct(prefix: string, j: nat, k: nat, tj: string, tk: string)
    requires OutputLine(prefix, j, tj) == OutputLine(prefix, k, tk)
    ensures j == k
  {
    var rj, rk := ".wav|" + tj, ".wav|" + tk;
    OutputLineParts(prefix, j, tj);
    OutputLineParts(prefix, k, tk);
    CancelHead("audio_material/data/audio/" + prefix + "_", Pad3(j) + rj, Pad3(k) + rk);
    Pad3Shape(j);
    Pad3Shape(k);
    DigitRun(Pad3(j), rj, Pad3(k), rk);
    Pad3Injective(j, k);
  }
}
