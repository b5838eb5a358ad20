/** The local log-reduction pipeline of services/logParser.ts: the file-name
    test `isTextLog`, the line filter `filterContent`, and the part of
    `parseSysdiagnose` that runs after decompression (head/tail window
    sampling, the gap marker, and the choice of the one chunk handed on). */
module LogParser {
  import opened JsString
  import opened LogTypes

  // ---------------------------------------------------------------------
  // isTextLog
  // ---------------------------------------------------------------------

  /** A file name that looks like a text log: it ends in ".log" or ".txt",
      or mentions "bluetooth" or "system", all ignoring case. */
  predicate IsTextLog(name: string)
  {
    var lower := Lower(name);
    EndsWith(lower, ".log") || EndsWith(lower, ".txt")
    || Contains(lower, "bluetooth") || Contains(lower, "system")
  }

  /** The test ignores case: a name and its lower-case form are judged alike. */
  lemma IsTextLogIgnoresCase(name: string)
    ensures IsTextLog(Lower(name)) <==> IsTextLog(name)
  {
    LowerIdempotent(name);
  }

  /** Every name with a ".log" or ".txt" extension, in any case, is a text log. */
  lemma IsTextLogByExtension(stem: string)
    ensures IsTextLog(stem + ".log") && IsTextLog(stem + ".LOG")
    ensures IsTextLog(stem + ".txt") && IsTextLog(stem + ".TXT")
  {
    LowerAppend(stem, ".log");
    LowerAppend(stem, ".LOG");
    LowerAppend(stem, ".txt");
    LowerAppend(stem, ".TXT");
    assert Lower(".LOG") == ".log";
    assert Lower(".TXT") == ".txt";
    assert Lower(".log") == ".log";
    assert Lower(".txt") == ".txt";
  }

  /** Every name that mentions "bluetooth" or "system" anywhere, in any
      capitalisation, is a text log; a name mentioning "bluetooth" is also a
      bluetooth log. */
  lemma IsTextLogByMention(before: string, word: string, after: string)
    requires Lower(word) == "bluetooth" || Lower(word) == "system"
    ensures IsTextLog(before + word + after)
    ensures Lower(word) == "bluetooth" ==> IsBluetoothLog(before + word + after)
  {
    MentionFound(before, word, Lower(word), after);
  }

  // ---------------------------------------------------------------------
  // Per-line classification (the four OR-combined rules of filterContent)
  // ---------------------------------------------------------------------

  /** Rule 1: the lower-cased line names the accessory. */
  predicate HasPencilKeyword(line: string)
  {
    var lower := Lower(line);
    Contains(lower, "apple pencil") || Contains(lower, "applepencil")
    || Contains(lower, "pencil") || Contains(lower, "stylus")
  }

  /** Rule 2: the line carries one of three hardware model codes (case matters). */
  predicate HasModelIdentifier(line: string)
  {
    Contains(line, "A2538") || Contains(line, "A2051") || Contains(line, "A1603")
  }

  /** Rule 3: a state-dump or last-seen line with a corroborating signal. */
  predicate HasStateDump(line: string)
  {
    var lower := Lower(line);
    (Contains(lower, "statedump") || Contains(lower, "lastseen"))
    && (HasPencilKeyword(line) || HasModelIdentifier(line) || Contains(lower, "gapname"))
  }

  /** Rule 4's line test: a device with a signal strength, or a connection
      event (case matters). */
  predicate HasConnectivitySignal(line: string)
  {
    (Contains(line, "Device") && Contains(line, "RSSI"))
    || Contains(line, "Connect") || Contains(line, "disconnect")
  }

  /** Rule 4 is switched on only for a source whose name mentions "bluetooth". */
  predicate IsBluetoothLog(fileName: string)
  {
    Contains(Lower(fileName), "bluetooth")
  }

  /** Whether `filterContent` keeps a line. */
  predicate IsRelevant(line: string, isBluetoothLog: bool)
  {
    HasPencilKeyword(line) || HasModelIdentifier(line) || HasStateDump(line)
    || (isBluetoothLog && HasConnectivitySignal(line))
  }

  /** The keep decision in its simplest form: the longer keywords and the
      keyword/identifier half of rule 3 add nothing to rules 1 and 2, so a
      line is kept exactly when it names "pencil" or "stylus" in any case,
      carries a model code, is a state-dump/last-seen line with a "gapname"
      field, or is a connectivity line of a bluetooth source. */
  lemma RelevantIff(line: string, isBluetoothLog: bool)
    ensures IsRelevant(line, isBluetoothLog) <==>
      var lower := Lower(line);
      Contains(lower, "pencil") || Contains(lower, "stylus")
      || HasModelIdentifier(line)
      || ((Contains(lower, "statedump") || Contains(lower, "lastseen")) && Contains(lower, "gapname"))
      || (isBluetoothLog && HasConnectivitySignal(line))
  {
    var lower := Lower(line);
    if Contains(lower, "apple pencil") {
      PencilInLongKeywords();
      ContainsInfix(lower, "apple pencil", "pencil", 6);
    }
    if Contains(lower, "applepencil") {
      PencilInLongKeywords();
      ContainsInfix(lower, "applepencil", "pencil", 5);
    }
  }

  lemma PencilInLongKeywords()
    ensures OccursAt("apple pencil", "pencil", 6) && OccursAt("applepencil", "pencil", 5)
  {
    assert "apple pencil"[6..12] == "pencil";
    assert "applepencil"[5..11] == "pencil";
  }

  // ---------------------------------------------------------------------
  // The matches of a sequence of lines, in order
  // ---------------------------------------------------------------------

  /** The keep decision of `filterContent` for a source of the given kind. */
  function Keep(isBluetoothLog: bool): string -> bool
  {
    line => IsRelevant(line, isBluetoothLog)
  }

  /** The trimmed lines that `keep` accepts, in their original order. */
  function Matches(lines: seq<string>, keep: string -> bool): (r: seq<string>)
    ensures |r| <= |lines|
    decreases |lines|
  {
    if lines == [] then []
    else (if keep(lines[0]) then [Trim(lines[0])] else []) + Matches(lines[1..], keep)
  }

  /** The positions, from `from` on, of the lines that `keep` accepts:
      strictly increasing, and a position is listed exactly when its line
      is accepted. */
  function KeptIndices(lines: seq<string>, keep: string -> bool, from: nat): (r: seq<nat>)
    requires from <= |lines|
    ensures forall k :: 0 <= k < |r| ==> from <= r[k] < |lines|
    ensures forall k, m :: 0 <= k < m < |r| ==> r[k] < r[m]
    ensures forall j: nat :: from <= j < |lines| ==> (j in r <==> keep(lines[j]))
    decreases |lines| - from
  {
    if from == |lines| then []
    else (if keep(lines[from]) then [from] else []) + KeptIndices(lines, keep, from + 1)
  }

  /** The k-th match is the k-th accepted line, trimmed: a line is kept
      exactly when it is accepted, and the kept lines keep their order. */
  lemma {:induction false} MatchesAt(lines: seq<string>, keep: string -> bool, from: nat)
    requires from <= |lines|
    ensures |Matches(lines[from..], keep)| == |KeptIndices(lines, keep, from)|
    ensures forall k :: 0 <= k < |KeptIndices(lines, keep, from)| ==>
      Matches(lines[from..], keep)[k] == Trim(lines[KeptIndices(lines, keep, from)[k]])
    decreases |lines| - from
  {
    if from < |lines| {
      MatchesAt(lines, keep, from + 1);
      assert lines[from..][1..] == lines[from + 1..];
      assert lines[from..][0] == lines[from];
    }
  }

  /** Classification has no cross-line state: the matches of a
      concatenation are the matches of each part, concatenated. */
  lemma {:induction false} MatchesAppend(a: seq<string>, b: seq<string>, keep: string -> bool)
    ensures Matches(a + b, keep) == Matches(a, keep) + Matches(b, keep)
    decreases |a|
  {
    if a == [] {
      assert a + b == b;
    } else {
      assert (a + b)[0] == a[0];
      assert (a + b)[1..] == a[1..] + b;
      MatchesAppend(a[1..], b, keep);
      var h := if keep(a[0]) then [Trim(a[0])] else [];
      assert Matches(a + b, keep) == h + Matches(a[1..] + b, keep);
      assert Matches(a, keep) == h + Matches(a[1..], keep);
    }
  }

  /** One more line adds its trimmed form exactly when it is accepted. */
  lemma MatchesStep(lines: seq<string>, i: nat, keep: string -> bool)
    requires i < |lines|
    ensures Matches(lines[..i + 1], keep)
      == Matches(lines[..i], keep) + if keep(lines[i]) then [Trim(lines[i])] else []
  {
    assert lines[..i + 1] == lines[..i] + [lines[i]];
    MatchesAppend(lines[..i], [lines[i]], keep);
  }

  /** Trimming never introduces a separator, so the matches of
      separator-free lines are separator-free. */
  lemma {:induction false} MatchesNoSep(lines: seq<string>, keep: string -> bool, sep: char)
    requires forall k :: 0 <= k < |lines| ==> sep !in lines[k]
    ensures forall k :: 0 <= k < |Matches(lines, keep)| ==> sep !in Matches(lines, keep)[k]
    decreases |lines|
  {
    if lines != [] {
      MatchesNoSep(lines[1..], keep, sep);
      TrimNoChar(lines[0], sep);
    }
  }

  // ---------------------------------------------------------------------
  // filterContent
  // ---------------------------------------------------------------------

  /** At most this many matched lines are kept. */
  const MaxLines := 800

  /** Keeps the last `cap` elements: the result is the suffix of `s` of
      length min(|s|, cap). */
  function TailCap<T>(s: seq<T>, cap: nat): (r: seq<T>)
    ensures |r| == if |s| <= cap then |s| else cap
    ensures r == s[|s| - |r|..]
  {
    if |s| > cap then s[|s| - cap..] else s
  }

  /** What `filterContent(content, fileName)` returns: the last MaxLines
      trimmed relevant lines of `content`, joined by newlines. */
  function FilteredText(content: string, fileName: string): string
  {
    Join(TailCap(Matches(Split(content, '\n'), Keep(IsBluetoothLog(fileName))), MaxLines), '\n')
  }

  /** `filterContent`: one pass over the lines pushing each trimmed relevant
      line, then the tail cap and the join. */
  method FilterContent(content: string, fileName: string) returns (r: string)
    ensures r == FilteredText(content, fileName)
  {
    var lines := Split(content, '\n');
    var relevantLines: seq<string> := [];
    var isBluetoothLog := IsBluetoothLog(fileName);
    for i := 0 to |lines|
      invariant relevantLines == Matches(lines[..i], Keep(isBluetoothLog))
    {
      var line := lines[i];
      if IsRelevant(line, isBluetoothLog) {
        relevantLines := relevantLines + [Trim(line)];
      }
      MatchesStep(lines, i, Keep(isBluetoothLog));
    }
    assert lines[..|lines|] == lines;
    if |relevantLines| > MaxLines {
      return Join(relevantLines[|relevantLines| - MaxLines..], '\n');
    }
    return Join(relevantLines, '\n');
  }

  /** Joining the last `cap` of some separator-free lines and splitting
      again gives those lines back. */
  lemma CappedRoundTrip(m: seq<string>, cap: nat)
    requires forall k :: 0 <= k < |m| ==> '\n' !in m[k]
    requires cap > 0 && m != []
    ensures Split(Join(TailCap(m, cap), '\n'), '\n') == TailCap(m, cap)
  {
    var kept := TailCap(m, cap);
    forall k | 0 <= k < |kept|
      ensures '\n' !in kept[k]
    {
      assert kept[k] == m[|m| - |kept| + k];
    }
    SplitJoin(kept, '\n');
  }

  /** Joining the last `cap` matches and splitting again gives those
      matches back, whatever lines are accepted. */
  lemma CappedMatchesRoundTrip(lines: seq<string>, keep: string -> bool, cap: nat)
    requires forall k :: 0 <= k < |lines| ==> '\n' !in lines[k]
    requires cap > 0 && Matches(lines, keep) != []
    ensures Split(Join(TailCap(Matches(lines, keep), cap), '\n'), '\n') == TailCap(Matches(lines, keep), cap)
  {
    MatchesNoSep(lines, keep, '\n');
    CappedRoundTrip(Matches(lines, keep), cap);
  }

  /** The filtered text, read back line by line, is exactly the last
      MaxLines matches in order (and the empty string when nothing matched). */
  lemma FilteredTextLines(content: string, fileName: string)
    ensures var m := Matches(Split(content, '\n'), Keep(IsBluetoothLog(fileName)));
      (m == [] ==> FilteredText(content, fileName) == "")
      && (m != [] ==> Split(FilteredText(content, fileName), '\n') == TailCap(m, MaxLines))
  {
    var lines := Split(content, '\n');
    var keep := Keep(IsBluetoothLog(fileName));
    if Matches(lines, keep) != [] {
      CappedMatchesRoundTrip(lines, keep, MaxLines);
    }
  }

  /** The filtered text never holds more than MaxLines lines. */
  lemma FilteredTextAtMostMaxLines(content: string, fileName: string)
    ensures |Split(FilteredText(content, fileName), '\n')| <= MaxLines
  {
    FilteredTextLines(content, fileName);
  }

  /** Any line naming the accessory as "Pencil" or "Stylus", in any of the
      usual capitalisations, is kept whatever the source. */
  lemma MentionKept(before: string, after: string, isBluetoothLog: bool)
    ensures IsRelevant(before + "Pencil" + after, isBluetoothLog)
    ensures IsRelevant(before + "pencil" + after, isBluetoothLog)
    ensures IsRelevant(before + "Stylus" + after, isBluetoothLog)
  {
    MentionFound(before, "Pencil", "pencil", after);
    MentionFound(before, "pencil", "pencil", after);
    MentionFound(before, "Stylus", "stylus", after);
  }

  /** A word whose lower-case form is `lowerWord`, placed anywhere in a line,
      is found in the lower-cased line. */
  lemma MentionFound(before: string, word: string, lowerWord: string, after: string)
    requires Lower(word) == lowerWord
    ensures Contains(Lower(before + word + after), lowerWord)
  {
    LowerAppend(before, word);
    LowerAppend(before + word, after);
    var s := Lower(before + word + after);
    assert s == Lower(before) + lowerWord + Lower(after);
    assert s[|before|..|before| + |lowerWord|] == lowerWord;
    ContainsAt(s, lowerWord, |before|);
  }

  /** A state-dump line with a device-name field satisfies rule 3, and so
      is kept whatever the source, even when it names no accessory and
      carries no model code. */
  lemma StateDumpWithNameFieldKept(before: string, mid: string, after: string, isBluetoothLog: bool)
    ensures HasStateDump(before + "statedump" + mid + "GAPName" + after)
    ensures IsRelevant(before + "statedump" + mid + "GAPName" + after, isBluetoothLog)
  {
    var line := before + "statedump" + mid + "GAPName" + after;
    assert line == before + "statedump" + (mid + "GAPName" + after);
    assert line == (before + "statedump" + mid) + "GAPName" + after;
    assert Lower("statedump") == "statedump";
    assert Lower("GAPName") == "gapname";
    MentionFound(before, "statedump", "statedump", mid + "GAPName" + after);
    MentionFound(before + "statedump" + mid, "GAPName", "gapname", after);
  }

  /** Any line carrying one of the three model codes is kept whatever the source. */
  lemma ModelCodeKept(before: string, code: string, after: string, isBluetoothLog: bool)
    requires code == "A2538" || code == "A2051" || code == "A1603"
    ensures IsRelevant(before + code + after, isBluetoothLog)
  {
    var s := before + code + after;
    assert s[|before|..|before| + |code|] == code;
    ContainsAt(s, code, |before|);
  }

  /** A line with no `l`/`L`, no `u`/`U` and no `A` can match neither the
      keyword, the model-code nor the state-dump rule: it is kept exactly
      when the source is a bluetooth log and the line is a connectivity line. */
  lemma OnlyConnectivity(line: string, isBluetoothLog: bool)
    requires 'l' !in line && 'L' !in line && 'u' !in line && 'U' !in line && 'A' !in line
    ensures IsRelevant(line, isBluetoothLog) <==> isBluetoothLog && HasConnectivitySignal(line)
  {
    LowerLacks(line, 'l');
    LowerLacks(line, 'u');
    var lower := Lower(line);
    NotContainsMissingChar(lower, "apple pencil", 'l');
    NotContainsMissingChar(lower, "applepencil", 'l');
    NotContainsMissingChar(lower, "pencil", 'l');
    NotContainsMissingChar(lower, "stylus", 'l');
    NotContainsMissingChar(line, "A2538", 'A');
    NotContainsMissingChar(line, "A2051", 'A');
    NotContainsMissingChar(line, "A1603", 'A');
    NotContainsMissingChar(lower, "statedump", 'u');
    NotContainsMissingChar(lower, "lastseen", 'l');
  }

  /** A text of one line filters to that line, trimmed, when it is kept,
      and to the empty string otherwise. */
  lemma SingleLineFiltered(line: string, fileName: string)
    requires '\n' !in line
    ensures FilteredText(line, fileName)
      == if IsRelevant(line, IsBluetoothLog(fileName)) then Trim(line) else ""
  {
    SplitNoSep(line, '\n');
    var keep := Keep(IsBluetoothLog(fileName));
    assert [line][1..] == [];
    assert Matches([line], keep) == if keep(line) then [Trim(line)] else [];
  }

  // ---------------------------------------------------------------------
  // Window sampling of the decompressed stream
  // ---------------------------------------------------------------------

  newtype byte = b: int | 0 <= b < 256

  /** Size of each sampled window: 20 MiB. */
  const SliceSize := 20 * 1024 * 1024

  /** `decompressed.slice(0, sliceSize)`: the first min(len, 20 MiB) bytes. */
  function Head(d: seq<byte>): (r: seq<byte>)
    ensures |r| == if |d| <= SliceSize then |d| else SliceSize
    ensures r == d[..|r|]
  {
    d[..if |d| <= SliceSize then |d| else SliceSize]
  }

  /** `decompressed.slice(Math.max(0, len - sliceSize))`: the last
      min(len, 20 MiB) bytes. */
  function Tail(d: seq<byte>): (r: seq<byte>)
    ensures |r| == if |d| <= SliceSize then |d| else SliceSize
    ensures r == d[|d| - |r|..]
  {
    d[if |d| - SliceSize > 0 then |d| - SliceSize else 0..]
  }

  /** Bounded sampling: the two windows together never exceed 2 x 20 MiB. */
  lemma WindowsBounded(d: seq<byte>)
    ensures |Head(d)| + |Tail(d)| <= 2 * SliceSize
  {
  }

  /** Small inputs: when the stream fits in one window, both windows are
      the whole stream. */
  lemma SmallInputConvergence(d: seq<byte>)
    requires |d| <= SliceSize
    ensures Head(d) == d && Tail(d) == d
  {
    assert d[..|d|] == d;
  }

  /** Large inputs: the windows are the two ends of the stream and only the
      middle between them is skipped. */
  lemma LargeInputCoverage(d: seq<byte>)
    requires |d| >= 2 * SliceSize
    ensures d == Head(d) + d[SliceSize..|d| - SliceSize] + Tail(d)
  {
    assert Head(d) == d[..SliceSize];
    assert Tail(d) == d[|d| - SliceSize..];
    assert d == d[..SliceSize] + d[SliceSize..|d| - SliceSize] + d[|d| - SliceSize..];
  }

  /** Medium inputs: with at most 2 x 20 MiB, nothing is skipped; every
      byte after the head window lies at the end of the tail window. */
  lemma OverlapCoverage(d: seq<byte>)
    requires |d| <= 2 * SliceSize
    ensures d == Head(d) + Tail(d)[|Tail(d)| - (|d| - |Head(d)|)..]
  {
    var h := Head(d);
    var t := Tail(d);
    assert t[|t| - (|d| - |h|)..] == d[|h|..];
    assert d == d[..|h|] + d[|h|..];
  }

  /** Marker placed between the decoded head and tail windows. */
  const GapMarker := "\n...[SKIPPED DATA]...\n"

  /** The line the gap marker contributes to the combined text. */
  const GapLine := "...[SKIPPED DATA]..."

  /** The text fed to the filter: the decoded head, the gap marker, the
      decoded tail. `decode` is the (lossy, total) UTF-8 decoder. */
  function CombinedText(d: seq<byte>, decode: seq<byte> -> string): string
  {
    decode(Head(d)) + GapMarker + decode(Tail(d))
  }

  /** The combined text always holds the gap marker, even for an empty stream. */
  lemma CombinedHasMarker(d: seq<byte>, decode: seq<byte> -> string)
    ensures Contains(CombinedText(d, decode), GapMarker)
  {
    var s := CombinedText(d, decode);
    var n := |decode(Head(d))|;
    assert s[n..n + |GapMarker|] == GapMarker;
    ContainsAt(s, GapMarker, n);
  }

  /** Line by line, the combined text is the head's lines, the marker's own
      line, then the tail's lines. */
  lemma CombinedLines(d: seq<byte>, decode: seq<byte> -> string)
    ensures Split(CombinedText(d, decode), '\n')
      == Split(decode(Head(d)), '\n') + [GapLine] + Split(decode(Tail(d)), '\n')
  {
    assert GapMarker == ['\n'] + GapLine + ['\n'];
    assert '\n' !in GapLine;
    var a, b := decode(Head(d)), decode(Tail(d));
    assert CombinedText(d, decode) == a + ['\n'] + GapLine + ['\n'] + b;
    SplitAroundPiece(a, GapLine, b, '\n');
  }

  /** A line with no `l`, `u` (in either case), no lowercase `c` and no
      digit `0` or `3` can match none of the rules: every accessory keyword
      and the last-seen marker need an `l`, the state-dump marker a `u`,
      every model code a `0` or a `3`, and every connectivity word a `c`. */
  lemma NotRelevantWithoutLetters(line: string, isBluetoothLog: bool)
    requires 'l' !in line && 'L' !in line && 'u' !in line && 'U' !in line
    requires 'c' !in line && '0' !in line && '3' !in line
    ensures !IsRelevant(line, isBluetoothLog)
  {
    LowerLacks(line, 'l');
    LowerLacks(line, 'u');
    var lower := Lower(line);
    NotContainsMissingChar(lower, "apple pencil", 'l');
    NotContainsMissingChar(lower, "applepencil", 'l');
    NotContainsMissingChar(lower, "pencil", 'l');
    NotContainsMissingChar(lower, "stylus", 'l');
    NotContainsMissingChar(line, "A2538", '3');
    NotContainsMissingChar(line, "A2051", '0');
    NotContainsMissingChar(line, "A1603", '0');
    NotContainsMissingChar(lower, "statedump", 'u');
    NotContainsMissingChar(lower, "lastseen", 'l');
    NotContainsMissingChar(line, "Device", 'c');
    NotContainsMissingChar(line, "Connect", 'c');
    NotContainsMissingChar(line, "disconnect", 'c');
  }

  /** The marker line is never kept, whatever the source. */
  lemma GapLineNotRelevant(isBluetoothLog: bool)
    ensures !IsRelevant(GapLine, isBluetoothLog)
  {
    GapLineLacksL();
    GapLineLacksU();
    GapLineLacksCodes();
    NotRelevantWithoutLetters(GapLine, isBluetoothLog);
  }

  lemma GapLineLacksL()
    ensures 'l' !in GapLine && 'L' !in GapLine
  {
  }

  lemma GapLineLacksU()
    ensures 'u' !in GapLine && 'U' !in GapLine
  {
  }

  lemma GapLineLacksCodes()
    ensures 'c' !in GapLine && '0' !in GapLine && '3' !in GapLine
  {
  }

  /** Two pieces framing a line that `keep` rejects: the matches are those
      of the two pieces. */
  lemma MatchesAroundRejected(a: seq<string>, x: string, b: seq<string>, keep: string -> bool)
    requires !keep(x)
    ensures Matches(a + [x] + b, keep) == Matches(a, keep) + Matches(b, keep)
  {
    assert [x][1..] == [];
    assert Matches([x], keep) == [];
    MatchesAppend(a, [x], keep);
    assert Matches(a + [x], keep) == Matches(a, keep);
    MatchesAppend(a + [x], b, keep);
  }

  /** The matches of the combined text are the head window's matches
      followed by the tail window's: the marker adds no line of its own. */
  lemma CombinedMatches(d: seq<byte>, decode: seq<byte> -> string, isBluetoothLog: bool)
    ensures Matches(Split(CombinedText(d, decode), '\n'), Keep(isBluetoothLog))
      == Matches(Split(decode(Head(d)), '\n'), Keep(isBluetoothLog))
         + Matches(Split(decode(Tail(d)), '\n'), Keep(isBluetoothLog))
  {
    CombinedLines(d, decode);
    GapLineNotRelevant(isBluetoothLog);
    MatchesAroundRejected(Split(decode(Head(d)), '\n'), GapLine, Split(decode(Tail(d)), '\n'), Keep(isBluetoothLog));
  }

  // ---------------------------------------------------------------------
  // parseSysdiagnose after the file has been read
  // ---------------------------------------------------------------------

  /** The file-name label the pipeline gives the combined text. */
  const ScanFileName := "combined_logs.txt"

  /** The label the pipeline passes does not mention "bluetooth", so the
      connectivity rule is never switched on inside `parseSysdiagnose`: its
      filter keeps exactly the lines the first three rules keep. */
  lemma ScanFileNameNotBluetooth()
    ensures !IsBluetoothLog(ScanFileName)
    ensures forall content :: (FilteredText(content, ScanFileName)
      == Join(TailCap(Matches(Split(content, '\n'), Keep(false)), MaxLines), '\n'))
  {
    ScanFileNameLacksH();
    LowerLacks(ScanFileName, 'h');
    NotContainsMissingChar(Lower(ScanFileName), "bluetooth", 'h');
  }

  lemma ScanFileNameLacksH()
    ensures 'h' !in ScanFileName && 'H' !in ScanFileName
  {
  }

  /** Below this many characters the filtered text is not worth sending. */
  const MinUsefulLength := 50

  const FallbackName := "sysdiagnose_scan.log"
  const FallbackContent := "No explicit 'Apple Pencil' records found in the quick scan window. AI will analyze general Bluetooth activity."
  const ExtractedName := "extracted_pencil_activity.log"

  /** What the file reader delivered: the bytes, or a read failure. */
  datatype ReadResult = Loaded(bytes: seq<byte>) | ReadError

  /** What gunzip delivered: the decompressed bytes, or an error. */
  datatype DecompressResult = Ok(bytes: seq<byte>) | Err

  /** The two ways the parse is rejected. */
  datatype ParseError = InvalidFormat | ReadFailure
  {
    /** The message the caller shows. */
    function Message(): string
    {
      match this
      case InvalidFormat => "文件格式无效。请上传 .tar.gz 格式的 Sysdiagnose 文件。"
      case ReadFailure => "读取文件失败"
    }
  }

  /** The single chunk produced from the filtered text: the fixed advisory
      with score 1 when fewer than 50 characters survived, otherwise the
      filtered text itself with score 10. Its content is never empty. */
  function ChunkFor(filtered: string): (c: ParsedLogChunk)
    ensures c.content != []
    ensures c.timestamp == None
    ensures c.relevanceScore == 1 <==> |filtered| < MinUsefulLength
    ensures c.relevanceScore == 1 || c.relevanceScore == 10
    ensures |filtered| < MinUsefulLength ==> c.fileName == FallbackName && c.content == FallbackContent
    ensures |filtered| >= MinUsefulLength ==> c.fileName == ExtractedName && c.content == filtered
  {
    if |filtered| < MinUsefulLength then ParsedLogChunk(FallbackName, FallbackContent, None, 1)
    else ParsedLogChunk(ExtractedName, filtered, None, 10)
  }

  /** `parseSysdiagnose`: a read failure or a gunzip error rejects with its
      message and no chunks; otherwise exactly one chunk is produced from
      the filtered head/tail sample. `gunzip` and `decode` stand for the
      decompression library and the UTF-8 decoder. */
  method ParseSysdiagnose(file: ReadResult, gunzip: seq<byte> -> DecompressResult, decode: seq<byte> -> string)
    returns (r: Result<seq<ParsedLogChunk>, ParseError>)
    ensures file.ReadError? ==> r == Failure(ReadFailure)
    ensures file.Loaded? && gunzip(file.bytes).Err? ==> r == Failure(InvalidFormat)
    ensures file.Loaded? && gunzip(file.bytes).Ok? ==>
      r == Success([ChunkFor(FilteredText(CombinedText(gunzip(file.bytes).bytes, decode), ScanFileName))])
  {
    if file.ReadError? {
      return Failure(ReadFailure);
    }
    var chunks: seq<ParsedLogChunk> := [];
    var unzipped := gunzip(file.bytes);
    if unzipped.Err? {
      return Failure(InvalidFormat);
    }
    var decompressed := unzipped.bytes;
    var head := Head(decompressed);
    var tail := Tail(decompressed);
    var combinedText := decode(head) + GapMarker + decode(tail);
    assert combinedText == CombinedText(decompressed, decode);
    var filtered := FilterContent(combinedText, ScanFileName);
    if |filtered| < MinUsefulLength {
      chunks := chunks + [ParsedLogChunk(FallbackName, FallbackContent, None, 1)];
    } else {
      chunks := chunks + [ParsedLogChunk(ExtractedName, filtered, None, 10)];
    }
    assert chunks == [ChunkFor(filtered)];
    return Success(chunks);
  }
}
