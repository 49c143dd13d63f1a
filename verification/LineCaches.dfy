/**
 Lines of a source code. Two caches find the line of an offset from lazily extended lists of
 line starts, by binary search; both agree with splitting the text at its line terminators,
 whatever was asked before.
 */
module LineCaches {

  /** UTF-16 code units. */
  type char16 = x: int | 0 <= x < 0x10000

  type Text = seq<char16>

  const LINE_FEED: char16 := 0x000A
  const CARRIAGE_RETURN: char16 := 0x000D
  const LINE_SEPARATOR: char16 := 0x2028
  const PARAGRAPH_SEPARATOR: char16 := 0x2029

  predicate IsLineTerminator(c: char16) {
    c == LINE_FEED || c == CARRIAGE_RETURN || c == LINE_SEPARATOR || c == PARAGRAPH_SEPARATOR
  }

  /** The naive split: every line but the last ends with its terminator. */
  function Split(text: Text): (r: seq<Text>)
    ensures r != []
  {
    if text == [] then [[]] else
      var n := |text| - 1;
      var lines := Split(text[..n]);
      var longer := lines[|lines| - 1 := lines[|lines| - 1] + [text[n]]];
      if IsLineTerminator(text[n]) then longer + [[]] else longer
  }

  function Concat(lines: seq<Text>): Text {
    if lines == [] then [] else Concat(lines[..|lines| - 1]) + lines[|lines| - 1]
  }

  /** Nothing is lost by splitting. */
  lemma {:induction false} ConcatOfSplit(text: Text)
    ensures Concat(Split(text)) == text
  {
    if text == [] {
      assert Concat([[]]) == Concat([[]][..0]) + [];
    } else {
      var n := |text| - 1;
      ConcatOfSplit(text[..n]);
      var lines := Split(text[..n]);
      var m := |lines| - 1;
      var longer := lines[m := lines[m] + [text[n]]];
      assert longer[..m] == lines[..m];
      assert Concat(longer) == Concat(lines) + [text[n]];
      assert (longer + [[]])[..m + 1] == longer;
      assert Concat(longer + [[]]) == Concat(longer);
    }
  }

  /** A line that is not the last ends with the only terminator in it, and the last has none. */
  predicate IsLine(line: Text, isLast: bool) {
    && (isLast || line != [])
    && forall j | 0 <= j < |line| :: IsLineTerminator(line[j]) <==> !isLast && j == |line| - 1
  }

  lemma {:induction false} LinesOfSplit(text: Text, k: nat)
    requires k < |Split(text)|
    ensures IsLine(Split(text)[k], k == |Split(text)| - 1)
  {
    if text != [] {
      var n := |text| - 1;
      var lines := Split(text[..n]);
      if k < |lines| {
        LinesOfSplit(text[..n], k);
      }
    }
  }

  /** Terminators before `offset`. */
  function Count(text: Text, offset: nat): nat
    requires offset <= |text|
  {
    if offset == 0 then 0 else Count(text, offset - 1) + if IsLineTerminator(text[offset - 1]) then 1 else 0
  }

  function LineStart(text: Text, offset: nat): (r: nat)
    requires offset <= |text|
    ensures r <= offset
  {
    if offset == 0 || IsLineTerminator(text[offset - 1]) then offset else LineStart(text, offset - 1)
  }

  function LineEnd(text: Text, offset: nat): (r: nat)
    requires offset <= |text|
    ensures offset <= r <= |text|
    decreases |text| - offset
  {
    if offset == |text| then offset
    else if IsLineTerminator(text[offset]) then offset + 1
    else LineEnd(text, offset + 1)
  }

  /** The starts of the second and later lines among the first `n` positions after a character. */
  function StartsIn(text: Text, n: nat): (r: seq<nat>)
    requires n <= |text|
    ensures |r| == Count(text, n)
  {
    if n == 0 then [] else StartsIn(text, n - 1) + if IsLineTerminator(text[n - 1]) then [n] else []
  }

  // ----- Lines in terms of code units

  /** The first `k` of several lines are `offset` code units long. */
  predicate BreaksAt(lines: seq<Text>, k: nat, offset: nat) {
    0 < k < |lines| && |Concat(lines[..k])| == offset
  }

  /** A line that is not the last ends at `offset`. */
  predicate HasBreak(lines: seq<Text>, offset: nat) {
    exists k | 0 < k < |lines| :: BreaksAt(lines, k, offset)
  }

  /** The split breaks after a code unit exactly if that is 10, 13, 0x2028 or 0x2029. */
  lemma {:induction false} SplitBreaks(text: Text, offset: nat)
    requires 0 < offset <= |text|
    ensures HasBreak(Split(text), offset) <==>
            text[offset - 1] in {10, 13, 0x2028, 0x2029}
  {
    hide HasBreak, Split;
    var n := |text| - 1;
    assert text == text[..n] + [text[n]];
    OneMoreBreak(text[..n], text[n], offset);
    if offset <= n {
      SplitBreaks(text[..n], offset);
    }
  }

  lemma OneMoreBreak(text: Text, c: char16, offset: nat)
    requires 0 < offset <= |text| + 1
    ensures offset <= |text| ==> (HasBreak(Split(text + [c]), offset) <==> HasBreak(Split(text), offset))
    ensures offset == |text| + 1 ==> (HasBreak(Split(text + [c]), offset) <==> IsLineTerminator(c))
  {
    hide BreaksAt, Split;
    if HasBreak(Split(text), offset) {
      var k :| 0 < k < |Split(text)| && BreaksAt(Split(text), k, offset);
      BreaksStay(text, c, k, offset);
      BreakBound(text, k, offset);
      BreakIndex(Split(text + [c]), k, offset);
    }
    if HasBreak(Split(text + [c]), offset) {
      var k :| 0 < k < |Split(text + [c])| && BreaksAt(Split(text + [c]), k, offset);
      BreaksStay(text, c, k, offset);
      if BreaksAt(Split(text), k, offset) {
        BreakIndex(Split(text), k, offset);
        BreakBound(text, k, offset);
      }
    }
    if IsLineTerminator(c) && offset == |text| + 1 {
      BreaksStay(text, c, |Split(text)|, offset);
      BreakIndex(Split(text + [c]), |Split(text)|, offset);
    }
  }

  lemma BreakIndex(lines: seq<Text>, k: nat, offset: nat)
    requires BreaksAt(lines, k, offset)
    ensures 0 < k < |lines|
  {
  }

  /** One more character leaves the breaks as they are, and adds one behind itself if it is a terminator. */
  lemma BreaksStay(text: Text, c: char16, k: nat, offset: nat)
    ensures BreaksAt(Split(text + [c]), k, offset) <==>
            BreaksAt(Split(text), k, offset) || (k == |Split(text)| && IsLineTerminator(c) && offset == |text| + 1)
  {
    SplitGrows(text, c);
    hide Split;
    var lines, more := Split(text), Split(text + [c]);
    if 0 < k < |lines| {
      assert more[..k] == lines[..k];
    } else if k == |lines| && IsLineTerminator(c) {
      ConcatOfSplit(text + [c]);
      assert more[..|more| - 1] == more[..k] && more[k] == [];
    }
  }

  lemma BreakBound(text: Text, k: nat, offset: nat)
    requires BreaksAt(Split(text), k, offset)
    ensures offset <= |text|
  {
    ConcatOfSplit(text);
    ConcatGrows(Split(text), k, |Split(text)|);
    assert Split(text)[..|Split(text)|] == Split(text);
  }

  lemma {:induction false} ConcatGrows(lines: seq<Text>, i: nat, j: nat)
    requires i <= j <= |lines|
    ensures |Concat(lines[..i])| <= |Concat(lines[..j])|
    decreases j - i
  {
    if i < j {
      ConcatGrows(lines, i, j - 1);
      assert lines[..j][..j - 1] == lines[..j - 1];
    }
  }

  /** The positions before `offset` that hold one of the four code units. */
  function Breaks(text: Text, offset: nat): set<nat>
    requires offset <= |text|
  {
    set i: nat | i < offset && text[i] in {10, 13, 0x2028, 0x2029}
  }

  lemma {:induction false} CountMeaning(text: Text, offset: nat)
    requires offset <= |text|
    ensures Count(text, offset) == |Breaks(text, offset)|
  {
    if offset > 0 {
      CountMeaning(text, offset - 1);
      if IsLineTerminator(text[offset - 1]) {
        assert Breaks(text, offset) == Breaks(text, offset - 1) + {offset - 1};
      } else {
        assert Breaks(text, offset) == Breaks(text, offset - 1);
      }
    }
  }

  /** A line starts behind one of the four code units, or at the start of the text, and has none up to the offset. */
  lemma {:induction false} LineStartMeaning(text: Text, offset: nat)
    requires offset <= |text|
    ensures forall i | LineStart(text, offset) <= i < offset :: text[i] !in {10, 13, 0x2028, 0x2029}
    ensures LineStart(text, offset) > 0 ==> text[LineStart(text, offset) - 1] in {10, 13, 0x2028, 0x2029}
  {
    if offset > 0 && !IsLineTerminator(text[offset - 1]) {
      LineStartMeaning(text, offset - 1);
    }
  }

  /** It ends behind the next of them, or at the end of the text. */
  lemma {:induction false} LineEndMeaning(text: Text, offset: nat)
    requires offset <= |text|
    ensures forall i | offset <= i < LineEnd(text, offset) - 1 :: text[i] !in {10, 13, 0x2028, 0x2029}
    ensures LineEnd(text, offset) == |text| ||
            (offset < LineEnd(text, offset) && text[LineEnd(text, offset) - 1] in {10, 13, 0x2028, 0x2029})
    decreases |text| - offset
  {
    if offset < |text| && !IsLineTerminator(text[offset]) {
      LineEndMeaning(text, offset + 1);
    }
  }

  predicate IsIncreasing(s: seq<nat>) {
    forall i, j :: 0 <= i < j < |s| ==> s[i] < s[j]
  }

  lemma {:induction false} StartsAreIncreasing(text: Text, n: nat)
    requires n <= |text|
    ensures IsIncreasing(StartsIn(text, n))
    ensures forall i :: 0 <= i < |StartsIn(text, n)| ==> 0 < StartsIn(text, n)[i] <= n
  {
    if n > 0 {
      StartsAreIncreasing(text, n - 1);
    }
  }

  /** Where the line of `offset` is in a list of line starts that reaches at least to `offset`. */
  lemma {:induction false} LineInStarts(text: Text, offset: nat, n: nat)
    requires offset <= n <= |text|
    ensures ghost var k := Count(text, offset);
            ghost var starts := StartsIn(text, n);
            && k <= |starts|
            && LineStart(text, offset) == (if k == 0 then 0 else starts[k - 1])
            && (k < |starts| ==> starts[k] == LineEnd(text, offset) > offset)
            && (k == |starts| ==> forall i | offset <= i < n :: !IsLineTerminator(text[i]))
    decreases n
  {
    if n == offset {
      LineOfLastStart(text, n);
    } else {
      LineInStarts(text, offset, n - 1);
      if Count(text, offset) == |StartsIn(text, n - 1)| {
        NoTerminatorUntil(text, offset, n - 1);
      }
    }
  }

  lemma {:induction false} LineOfLastStart(text: Text, n: nat)
    requires n <= |text|
    ensures LineStart(text, n) == if StartsIn(text, n) == [] then 0 else StartsIn(text, n)[|StartsIn(text, n)| - 1]
  {
    if n > 0 {
      LineOfLastStart(text, n - 1);
    }
  }

  lemma {:induction false} NoTerminatorUntil(text: Text, offset: nat, n: nat)
    requires offset <= n <= |text| && forall i | offset <= i < n :: !IsLineTerminator(text[i])
    ensures LineEnd(text, offset) == LineEnd(text, n)
    decreases n - offset
  {
    if offset < n {
      NoTerminatorUntil(text, offset + 1, n);
    }
  }

  /** The line of `offset` is the line of the split with that number. */
  lemma {:induction false} LineIsInSplit(text: Text, offset: nat)
    requires offset <= |text|
    ensures Count(text, offset) < |Split(text)|
    ensures text[LineStart(text, offset)..LineEnd(text, offset)] == Split(text)[Count(text, offset)]
  {
    if text != [] {
      var n := |text| - 1;
      var rest := text[..n];
      assert text == rest + [text[n]];
      SplitSize(rest);
      SplitGrows(rest, text[n]);
      if offset <= n {
        LineIsInSplit(rest, offset);
        SameBefore(rest, text, offset);
        LineEndGrows(rest, text[n], offset);
        hide Split, LineStart, LineEnd, Count;
        PartGrows(rest, text[n], LineStart(text, offset), LineEnd(rest, offset));
      } else {
        LineIsInSplit(rest, n);
        SameBefore(rest, text, n);
        LastLineStart(rest, text[n]);
        hide Split, LineStart, Count;
        PartGrows(rest, text[n], LineStart(rest, n), n);
      }
    }
  }

  /** One more character ends up in the last line, and starts a new one if it is a terminator. */
  lemma {:induction false} SplitGrows(text: Text, c: char16)
    ensures ghost var lines := Split(text);
            ghost var longer := lines[|lines| - 1 := lines[|lines| - 1] + [c]];
            Split(text + [c]) == if IsLineTerminator(c) then longer + [[]] else longer
  {
    assert (text + [c])[..|text|] == text;
  }

  lemma PartGrows(text: Text, c: char16, i: nat, j: nat)
    requires i <= j <= |text|
    ensures (text + [c])[i..j] == text[i..j]
    ensures j == |text| ==> (text + [c])[i..j + 1] == text[i..j] + [c]
  {
  }

  lemma {:induction false} LastLineStart(text: Text, c: char16)
    ensures ghost var n := |text|;
            && LineEnd(text + [c], n + 1) == n + 1 && LineEnd(text, n) == n
            && LineStart(text + [c], n + 1) == (if IsLineTerminator(c) then n + 1 else LineStart(text + [c], n))
            && Count(text + [c], n + 1) == Count(text + [c], n) + if IsLineTerminator(c) then 1 else 0
  {
  }

  lemma {:induction false} SameBefore(a: Text, b: Text, offset: nat)
    requires offset <= |a| <= |b| && a == b[..|a|]
    ensures Count(a, offset) == Count(b, offset) && LineStart(a, offset) == LineStart(b, offset)
    ensures StartsIn(a, offset) == StartsIn(b, offset)
  {
    if offset > 0 {
      SameBefore(a, b, offset - 1);
    }
  }

  lemma {:induction false} SplitSize(text: Text)
    ensures |Split(text)| == Count(text, |text|) + 1
  {
    if text != [] {
      SplitSize(text[..|text| - 1]);
      SameBefore(text[..|text| - 1], text, |text| - 1);
    }
  }

  /** One more character moves the end of the last line only. */
  lemma {:induction false} LineEndGrows(text: Text, c: char16, offset: nat)
    requires offset <= |text|
    ensures LineEnd(text + [c], offset) ==
            if Count(text, offset) == Count(text, |text|) then |text| + 1 else LineEnd(text, offset)
    ensures Count(text, offset) == Count(text, |text|) ==> LineEnd(text, offset) == |text|
    decreases |text| - offset
  {
    if offset < |text| {
      LineEndGrows(text, c, offset + 1);
      CountGrows(text, offset + 1, |text|);
    }
  }

  lemma {:induction false} CountGrows(text: Text, i: nat, j: nat)
    requires i <= j <= |text|
    ensures Count(text, i) <= Count(text, j)
  {
    if i < j {
      CountGrows(text, i, j - 1);
    }
  }

  /** The first index whose value is not below `x`. */
  method LowerBound(s: seq<nat>, x: nat) returns (index: nat)
    requires IsIncreasing(s)
    ensures index <= |s|
    ensures forall i :: 0 <= i < index ==> s[i] < x
    ensures forall i :: index <= i < |s| ==> x <= s[i]
  {
    index := 0;
    var end := |s|;
    while index < end
      invariant index <= end <= |s|
      invariant forall i :: 0 <= i < index ==> s[i] < x
      invariant forall i :: end <= i < |s| ==> x <= s[i]
    {
      var middle := index + (end - index) / 2;
      if s[middle] < x {
        index := middle + 1;
      } else {
        end := middle;
      }
    }
  }

  datatype SourceCodeLine = SourceCodeLine(start: nat, end: nat, number: nat)

  class SourceCodeLineCache {
    const sourceCode: Text
    var offsets: seq<nat>
    var runner: nat

    ghost predicate Valid()
      reads this
    {
      runner <= |sourceCode| && offsets == StartsIn(sourceCode, runner)
    }

    constructor (sourceCode: Text)
      ensures Valid() && this.sourceCode == sourceCode
    {
      this.sourceCode, offsets, runner := sourceCode, [], 0;
    }

    /** The line of `offset` in the naive split, in every state the cache can be in. */
    method Get(offset: nat) returns (line: SourceCodeLine)
      requires Valid() && offset <= |sourceCode|
      modifies this
      ensures Valid()
      ensures line.start == LineStart(sourceCode, offset) && line.end == LineEnd(sourceCode, offset)
      ensures line.number == Count(sourceCode, offset) + 1 <= |Split(sourceCode)|
      ensures sourceCode[line.start..line.end] == Split(sourceCode)[line.number - 1]
      ensures line.number == |Breaks(sourceCode, offset)| + 1
      ensures offset > 0 ==>
                (line.start == offset <==>
                 sourceCode[offset - 1] in {10, 13, 0x2028, 0x2029})
    {
      hide StartsIn, Count, LineStart, LineEnd, Split, Breaks;
      CountMeaning(sourceCode, offset);
      LineStartMeaning(sourceCode, offset);
      LineIsInSplit(sourceCode, offset);
      Extend(offset);
      line := Find(offset);
    }

    /** The part of `Get` after the cache has been extended. */
    method Find(offset: nat) returns (line: SourceCodeLine)
      requires Valid() && offset <= runner
      requires runner == |sourceCode| || (offsets != [] && offset < offsets[|offsets| - 1])
      ensures line.start == LineStart(sourceCode, offset) && line.end == LineEnd(sourceCode, offset)
      ensures line.number == Count(sourceCode, offset) + 1
    {
      LineBounds(offset);
      hide StartsIn, Count, LineStart, LineEnd;
      if offsets == [] {
        return SourceCodeLine(0, |sourceCode|, 1);
      }
      if offset < offsets[0] {
        return SourceCodeLine(0, offsets[0], 1);
      }
      var it := LowerBound(offsets, offset);
      IndexOfLine(sourceCode, offset, runner, it);
      if it == |offsets| {
        return SourceCodeLine(offsets[|offsets| - 1], |sourceCode|, |offsets| + 1);
      }
      var start := if offsets[it] == offset then it else it - 1;
      var lineNumber := start + 2;
      var next := start + 1;
      if next == |offsets| {
        return SourceCodeLine(offsets[start], |sourceCode|, lineNumber);
      }
      return SourceCodeLine(offsets[start], offsets[next], lineNumber);
    }

    lemma LineBounds(offset: nat)
      requires Valid() && offset <= runner
      requires runner == |sourceCode| || (offsets != [] && offset < offsets[|offsets| - 1])
      ensures IsIncreasing(offsets)
      ensures ghost var k := Count(sourceCode, offset);
              && k <= |offsets|
              && LineStart(sourceCode, offset) == (if k == 0 then 0 else offsets[k - 1]) <= offset
              && LineEnd(sourceCode, offset) == (if k == |offsets| then |sourceCode| else offsets[k])
              && (k < |offsets| ==> offset < offsets[k])
    {
      StartsAreIncreasing(sourceCode, runner);
      LineInStarts(sourceCode, offset, runner);
      if Count(sourceCode, offset) == |offsets| {
        NoTerminatorUntil(sourceCode, offset, runner);
      }
    }

    /** Scans until a line starts after `offset`, and no further. */
    method Extend(offset: nat)
      requires Valid() && offset <= |sourceCode|
      modifies this
      ensures Valid() && offset <= runner
      ensures runner == |sourceCode| || (offsets != [] && offset < offsets[|offsets| - 1])
      ensures runner == if old(runner) < LineEnd(sourceCode, offset) then LineEnd(sourceCode, offset) else old(runner)
    {
      ScannedBefore(offset);
      hide StartsIn, Count, LineStart, LineEnd;
      if offsets == [] || offset >= offsets[|offsets| - 1] {
        Scan(offset);
      }
    }

    /** A line start after `offset` is in the table if and only if the end of its line was scanned. */
    lemma ScannedBefore(offset: nat)
      requires Valid() && offset <= |sourceCode|
      ensures offsets != [] ==> offsets[|offsets| - 1] <= runner
      ensures offsets != [] && offset < offsets[|offsets| - 1] ==> LineEnd(sourceCode, offset) <= runner
      ensures offsets == [] || offset >= offsets[|offsets| - 1] ==>
                runner <= LineEnd(sourceCode, offset) == LineEnd(sourceCode, if offset <= runner then runner else offset)
    {
      StartsAreIncreasing(sourceCode, runner);
      if offset <= runner {
        LineInStarts(sourceCode, offset, runner);
        if offsets == [] || offset >= offsets[|offsets| - 1] {
          NoTerminatorUntil(sourceCode, offset, runner);
        }
      }
    }

    /** The loop of `Get`. */
    method Scan(offset: nat)
      requires Valid() && offset <= |sourceCode| && runner <= LineEnd(sourceCode, offset)
      requires offset <= runner ==> LineEnd(sourceCode, runner) == LineEnd(sourceCode, offset)
      modifies this
      ensures Valid() && runner == LineEnd(sourceCode, offset)
      ensures runner == |sourceCode| || (offsets != [] && offset < offsets[|offsets| - 1])
    {
      hide LineStart;
      while runner < |sourceCode|
        invariant Valid() && runner <= LineEnd(sourceCode, offset)
        invariant offset <= runner ==> LineEnd(sourceCode, runner) == LineEnd(sourceCode, offset)
      {
        runner := runner + 1;
        if !IsLineTerminator(sourceCode[runner - 1]) {
          continue;
        }
        offsets := offsets + [runner];
        if runner > offset {
          break;
        }
      }
    }
  }

  /** The index of the line start at or before `offset`, from the lower bound of `offset`. */
  lemma IndexOfLine(text: Text, offset: nat, n: nat, it: nat)
    requires offset <= n <= |text|
    requires ghost var starts := StartsIn(text, n);
             && it <= |starts|
             && (forall i :: 0 <= i < it ==> starts[i] < offset)
             && (forall i :: it <= i < |starts| ==> offset <= starts[i])
    ensures Count(text, offset) == if it < |StartsIn(text, n)| && StartsIn(text, n)[it] == offset then it + 1 else it
  {
    var starts := StartsIn(text, n);
    var k := Count(text, offset);
    StartsAreIncreasing(text, n);
    LineInStarts(text, offset, n);
    assert k > 0 ==> starts[k - 1] <= offset;
    assert k < |starts| ==> offset < starts[k];
  }

  class LineNumberCache {
    const sourceCode: Text
    var lastOffset: nat
    var lineStartOffsets: seq<nat>

    /** The end of the source code counts as a terminator. */
    ghost function Terminated(): Text {
      sourceCode + [LINE_FEED]
    }

    ghost predicate Valid()
      reads this
    {
      lastOffset <= |sourceCode| + 1 && lineStartOffsets == StartsIn(Terminated(), lastOffset)
    }

    constructor (sourceCode: Text)
      ensures Valid() && this.sourceCode == sourceCode
    {
      this.sourceCode, lineStartOffsets, lastOffset := sourceCode, [], 0;
    }

    predicate IsEndOfLine(offset: nat)
      requires offset <= |sourceCode|
    {
      offset == |sourceCode| || IsLineTerminator(sourceCode[offset])
    }

    /** Line and column of `offset`, in every state the cache can be in. */
    method Get(offset: nat) returns (lineNumber: nat, columnNumber: nat)
      requires Valid() && offset <= |sourceCode| + 1
      modifies this
      ensures Valid()
      ensures lineNumber == Count(Terminated(), offset) + 1
      ensures columnNumber == offset - LineStart(Terminated(), offset)
      ensures offset <= |sourceCode| ==> lineNumber == |Breaks(sourceCode, offset)| + 1
      ensures 0 < offset <= |sourceCode| ==>
                (columnNumber == 0 <==>
                 sourceCode[offset - 1] in {10, 13, 0x2028, 0x2029})
      ensures offset == |sourceCode| + 1 ==> lineNumber == |Breaks(sourceCode, |sourceCode|)| + 2 && columnNumber == 0
    {
      InTheText(offset);
      hide Count, LineStart, Breaks;
      if offset == 0 {
        return 1, 0;
      }
      if offset > lastOffset {
        Extend(offset);
      }
      lineNumber, columnNumber := Find(offset);
    }

    /** What line and column are in terms of code units. */
    lemma InTheText(offset: nat)
      requires offset <= |sourceCode| + 1
      ensures offset == 0 ==> Count(Terminated(), offset) == LineStart(Terminated(), offset) == 0
      ensures offset <= |sourceCode| ==> Count(Terminated(), offset) == |Breaks(sourceCode, offset)|
      ensures 0 < offset <= |sourceCode| ==>
                (LineStart(Terminated(), offset) == offset <==>
                 sourceCode[offset - 1] in {10, 13, 0x2028, 0x2029})
      ensures offset == |sourceCode| + 1 ==>
                Count(Terminated(), offset) == |Breaks(sourceCode, |sourceCode|)| + 1 && LineStart(Terminated(), offset) == offset
    {
      if offset <= |sourceCode| {
        SameBefore(sourceCode, Terminated(), offset);
        CountMeaning(sourceCode, offset);
        LineStartMeaning(sourceCode, offset);
      } else {
        SameBefore(sourceCode, Terminated(), |sourceCode|);
        CountMeaning(sourceCode, |sourceCode|);
      }
    }

    /** The part of `Get` after the cache has been extended. */
    method Find(offset: nat) returns (lineNumber: nat, columnNumber: nat)
      requires Valid() && offset <= lastOffset
      ensures lineNumber == Count(Terminated(), offset) + 1
      ensures columnNumber == offset - LineStart(Terminated(), offset)
    {
      hide Count, LineStart, LineEnd, StartsIn;
      ghost var text := Terminated();
      ghost var k := Count(text, offset);
      StartsAreIncreasing(text, lastOffset);
      LineInStarts(text, offset, lastOffset);
      if lineStartOffsets == [] || offset < lineStartOffsets[0] {
        assert k == 0;
        return 1, offset;
      }
      var last := |lineStartOffsets| - 1;
      if offset >= lineStartOffsets[last] {
        assert k == last + 1;
        return last + 2, offset - lineStartOffsets[last];
      }
      var it := LowerBound(lineStartOffsets, offset);
      IndexOfLine(text, offset, lastOffset, it);
      var start := if lineStartOffsets[it] == offset then it else it - 1;
      assert k == start + 1;
      return start + 2, offset - lineStartOffsets[start];
    }

    method Extend(offset: nat)
      requires Valid() && lastOffset < offset <= |sourceCode| + 1
      modifies this
      ensures Valid() && lastOffset == offset
    {
      for runner := lastOffset to offset
        invariant lineStartOffsets == StartsIn(Terminated(), runner)
        invariant lastOffset == old(lastOffset)
      {
        if !IsEndOfLine(runner) {
          continue;
        }
        lineStartOffsets := lineStartOffsets + [runner + 1];
      }
      lastOffset := offset;
    }
  }

  /** For an offset in the text the two caches give the same line. */
  lemma CachesAgree(lines: SourceCodeLineCache, numbers: LineNumberCache, offset: nat)
    requires lines.sourceCode == numbers.sourceCode && offset <= |lines.sourceCode|
    ensures Count(lines.sourceCode, offset) == Count(numbers.Terminated(), offset)
    ensures LineStart(lines.sourceCode, offset) == LineStart(numbers.Terminated(), offset)
  {
    SameBefore(lines.sourceCode, numbers.Terminated(), offset);
  }

  /** Just past the end the number cache answers with the start of a line that is not there. */
  lemma PastTheEnd(text: Text)
    ensures Count(text + [LINE_FEED], |text| + 1) == |Split(text)|
    ensures LineStart(text + [LINE_FEED], |text| + 1) == |text| + 1
  {
    SplitSize(text);
    SameBefore(text, text + [LINE_FEED], |text|);
  }
}
