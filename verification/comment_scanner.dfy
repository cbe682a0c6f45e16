/** The scanner that looks for references outside comments: line by line, with a flag carried from
    line to line, against a lexer that reads one character or one delimiter at a time. */
module CommentScanner {
  import opened Text

  /** A delimiter is two characters. */
  datatype Delimiter = Delimiter(first: char, second: char)

  const OPEN := Delimiter('/', '*')
  const CLOSE := Delimiter('*', '/')
  const SLASHES := Delimiter('/', '/')
  const PRAGMA := "frontend-ui-ok:"
  const MARKERS: seq<string> :=
    ["console.log(", "console.warn(", "console.error(", "console.debug(", "console.info(", "data-testid="]

  predicate IsAt(s: string, d: Delimiter, i: nat) {
    i + 1 < |s| && s[i] == d.first && s[i + 1] == d.second
  }

  /** First position of `d` in `s` at or after `from`, or -1. */
  function FindFrom(s: string, d: Delimiter, from: nat): (i: int)
    ensures i == -1 || from <= i < |s| - 1
    decreases |s| + 1 - from
  {
    if from > |s| then -1
    else if IsAt(s, d, from) then from
    else FindFrom(s, d, from + 1)
  }

  lemma {:induction false} FindsTheFirst(s: string, d: Delimiter, from: nat)
    ensures
      var i := FindFrom(s, d, from);
      if i < 0 then forall j | from <= j :: !IsAt(s, d, j)
      else IsAt(s, d, i) && forall j | from <= j < i :: !IsAt(s, d, j)
    decreases |s| + 1 - from
  {
    if from <= |s| && !IsAt(s, d, from) {
      FindsTheFirst(s, d, from + 1);
    }
  }

  /** Searching for a delimiter is searching for its two characters. */
  lemma {:induction false} DelimitersAreText(s: string, d: Delimiter, from: nat)
    ensures FindFrom(s, d, from) == Find(s, [d.first, d.second], from)
    decreases |s| + 1 - from
  {
    if from <= |s| {
      if from + 1 < |s| {
        assert s[from..from + 2] == [s[from], s[from + 1]];
      }
      DelimitersAreText(s, d, from + 1);
    }
  }

  // --- The lexer --------------------------------------------------------------------------

  /** Reading from `i`, in a block comment or in code: is the character at `p` outside all comments? */
  predicate Outside(s: string, i: nat, block: bool, p: nat)
    decreases |s| - i
  {
    if i >= |s| || p < i then false
    else if block then
      if IsAt(s, CLOSE, i) then Outside(s, i + 2, false, p) else Outside(s, i + 1, true, p)
    else if IsAt(s, SLASHES, i) then false
    else if IsAt(s, OPEN, i) then Outside(s, i + 2, true, p)
    else p == i || Outside(s, i + 1, false, p)
  }

  /** Reading from `i`: is the end of the line inside a block comment? */
  predicate EndsInBlock(s: string, i: nat, block: bool)
    decreases |s| - i
  {
    if i >= |s| then block
    else if block then
      if IsAt(s, CLOSE, i) then EndsInBlock(s, i + 2, false) else EndsInBlock(s, i + 1, true)
    else if IsAt(s, SLASHES, i) then false
    else if IsAt(s, OPEN, i) then EndsInBlock(s, i + 2, true)
    else EndsInBlock(s, i + 1, false)
  }

  /** From `i` on there is an opening delimiter with no closing one behind it. */
  ghost predicate OpenFrom(s: string, i: nat) {
    exists j: nat | i <= j :: IsAt(s, OPEN, j) && forall k | j < k :: !IsAt(s, CLOSE, k)
  }

  /** Reading from `i`: the line ends in a line comment with an opening delimiter and no closing one behind it. */
  ghost predicate LeavesOpen(s: string, i: nat, block: bool)
    decreases |s| - i
  {
    if i >= |s| then false
    else if block then
      if IsAt(s, CLOSE, i) then LeavesOpen(s, i + 2, false) else LeavesOpen(s, i + 1, true)
    else if IsAt(s, SLASHES, i) then OpenFrom(s, i)
    else if IsAt(s, OPEN, i) then LeavesOpen(s, i + 2, true)
    else LeavesOpen(s, i + 1, false)
  }

  /** The delimiters of the line do not overlap. */
  ghost predicate NoOverlap(s: string) {
    forall j: nat :: !(IsAt(s, OPEN, j) && IsAt(s, CLOSE, j + 1)) && !(IsAt(s, CLOSE, j) && IsAt(s, OPEN, j + 1))
  }

  // --- The spans of one line ----------------------------------------------------------------

  /** One stretch of code: where it ends, and where the next one may begin (the end of the line when the
      rest is a comment). */
  datatype Piece = Piece(end: nat, resume: nat)

  /** The next piece, by what is found next. */
  function PieceFrom(s: string, i: nat, slashes: int, open: int): Piece
    requires i < |s| && slashes == FindFrom(s, SLASHES, i) && open == FindFrom(s, OPEN, i)
  {
    if slashes < 0 && open < 0 then Piece(|s|, |s|)
    else if slashes >= 0 && (open < 0 || slashes < open) then Piece(slashes, |s|)
    else
      var close := FindFrom(s, CLOSE, open + 2);
      Piece(open, if close < 0 then |s| else close + 2)
  }

  function NextPiece(s: string, i: nat): (p: Piece)
    requires i < |s|
    ensures i <= p.end <= |s| && i < p.resume <= |s|
  {
    PieceFrom(s, i, FindFrom(s, SLASHES, i), FindFrom(s, OPEN, i))
  }

  /** The parts of the line the scanner examines, reading code from `i`. */
  function Spans(s: string, i: nat): seq<string>
    decreases |s| - i
  {
    if i >= |s| then [] else [s[i..NextPiece(s, i).end]] + Spans(s, NextPiece(s, i).resume)
  }

  /** `p` is in one of these parts. */
  predicate Examined(s: string, i: nat, p: nat)
    decreases |s| - i
  {
    i < |s| && (i <= p < NextPiece(s, i).end || Examined(s, NextPiece(s, i).resume, p))
  }

  method CodeSpans(line: string) returns (spans: seq<string>)
    ensures spans == Spans(line, 0)
  {
    spans := [];
    ghost var all := Collected(line, 0, []);
    CollectedAre(line, 0, []);
    var i := 0;
    while i < |line|
      invariant Collected(line, i, spans) == all
      decreases |line| - i
    {
      var slashes := FindFrom(line, SLASHES, i);
      var open := FindFrom(line, OPEN, i);
      ghost var piece := PieceFrom(line, i, slashes, open);
      CollectedStep(line, i, spans, piece);
      if slashes < 0 && open < 0 {
        spans := spans + [line[i..|line|]];
        break;
      }
      if slashes >= 0 && (open < 0 || slashes < open) {
        spans := spans + [line[i..slashes]];
        break;
      }
      spans := spans + [line[i..open]];
      var close := FindFrom(line, CLOSE, open + 2);
      if close < 0 {
        break;
      }
      i := close + 2;
    }
  }

  /** The loop's result, from the spans so far. */
  ghost function Collected(s: string, i: nat, spans: seq<string>): seq<string>
    decreases |s| - i
  {
    if i >= |s| then spans else Collected(s, NextPiece(s, i).resume, spans + [s[i..NextPiece(s, i).end]])
  }

  lemma CollectedStep(s: string, i: nat, spans: seq<string>, p: Piece)
    requires i < |s| && p == NextPiece(s, i)
    ensures Collected(s, i, spans) == Collected(s, p.resume, spans + [s[i..p.end]])
    ensures p.resume == |s| ==> Collected(s, i, spans) == spans + [s[i..p.end]]
  {
  }

  lemma {:induction false} CollectedAre(s: string, i: nat, spans: seq<string>)
    ensures Collected(s, i, spans) == spans + Spans(s, i)
    decreases |s| - i
  {
    if i < |s| {
      var p := NextPiece(s, i);
      CollectedAre(s, p.resume, spans + [s[i..p.end]]);
      Regroup(spans, [s[i..p.end]], Spans(s, p.resume));
    }
  }

  lemma Regroup(a: seq<string>, b: seq<string>, c: seq<string>)
    ensures a + (b + c) == a + b + c
  {
  }

  // --- The lexer over a stretch -------------------------------------------------------------

  lemma {:induction false} CodeStretch(s: string, i: nat, j: nat, p: nat)
    requires i <= j <= |s|
    requires forall k | i <= k < j :: !IsAt(s, SLASHES, k) && !IsAt(s, OPEN, k)
    ensures Outside(s, i, false, p) <==> i <= p < j || Outside(s, j, false, p)
    ensures EndsInBlock(s, i, false) == EndsInBlock(s, j, false)
    ensures LeavesOpen(s, i, false) == LeavesOpen(s, j, false)
    decreases j - i
  {
    if i < j {
      CodeStretch(s, i + 1, j, p);
    }
  }

  lemma {:induction false} BlockStretch(s: string, i: nat, j: nat, p: nat)
    requires i <= j <= |s|
    requires forall k | i <= k < j :: !IsAt(s, CLOSE, k)
    ensures Outside(s, i, true, p) == Outside(s, j, true, p)
    ensures EndsInBlock(s, i, true) == EndsInBlock(s, j, true)
    ensures LeavesOpen(s, i, true) == LeavesOpen(s, j, true)
    decreases j - i
  {
    if i < j {
      BlockStretch(s, i + 1, j, p);
    }
  }

  lemma AtOpen(s: string, i: nat, p: nat)
    requires IsAt(s, OPEN, i)
    ensures Outside(s, i, false, p) == Outside(s, i + 2, true, p)
    ensures EndsInBlock(s, i, false) == EndsInBlock(s, i + 2, true)
    ensures LeavesOpen(s, i, false) == LeavesOpen(s, i + 2, true)
  {
    assert s[i + 1] == s[i..i + 2][1] == '*';
    assert !IsAt(s, SLASHES, i);
  }

  lemma AtClose(s: string, i: nat, p: nat)
    requires IsAt(s, CLOSE, i)
    ensures Outside(s, i, true, p) == Outside(s, i + 2, false, p)
    ensures EndsInBlock(s, i, true) == EndsInBlock(s, i + 2, false)
    ensures LeavesOpen(s, i, true) == LeavesOpen(s, i + 2, false)
  {
  }

  /** The cases of the next piece: the rest is code, the rest is a line comment, or a block comment
      opens and is closed or not. */
  lemma PieceCases(s: string, i: nat) returns (close: int)
    requires i < |s|
    ensures
      var p := NextPiece(s, i);
      && (forall k | i <= k < p.end :: !IsAt(s, SLASHES, k) && !IsAt(s, OPEN, k))
      && (p.end == |s| || IsAt(s, SLASHES, p.end) || IsAt(s, OPEN, p.end))
      && (p.end < |s| && IsAt(s, SLASHES, p.end) ==> p.resume == |s|)
      && (p.end < |s| && IsAt(s, OPEN, p.end) ==>
            && p.resume == (if close < 0 then |s| else close + 2)
            && (if close < 0 then forall k | p.end + 2 <= k :: !IsAt(s, CLOSE, k)
                else p.end + 2 <= close && IsAt(s, CLOSE, close) && forall k | p.end + 2 <= k < close :: !IsAt(s, CLOSE, k)))
  {
    var p := NextPiece(s, i);
    FindsTheFirst(s, SLASHES, i);
    FindsTheFirst(s, OPEN, i);
    FindsTheFirst(s, CLOSE, p.end + 2);
    close := FindFrom(s, CLOSE, p.end + 2);
    if IsAt(s, OPEN, p.end) {
      AtOpen(s, p.end, 0);
    }
  }

  /** One piece is the lexer's next stretch of code, and the comment behind it. */
  lemma PieceIsOutside(s: string, i: nat, p: nat)
    requires i < |s|
    ensures Outside(s, i, false, p) <==> i <= p < NextPiece(s, i).end || Outside(s, NextPiece(s, i).resume, false, p)
  {
    var piece := NextPiece(s, i);
    var open := piece.end;
    var close := PieceCases(s, i);
    CodeStretch(s, i, piece.end, p);
    if piece.end < |s| && IsAt(s, OPEN, piece.end) {
      AtOpen(s, open, p);
      if close < 0 {
        BlockStretch(s, open + 2, |s|, p);
      } else {
        BlockStretch(s, open + 2, close, p);
        AtClose(s, close, p);
      }
    }
  }

  /** The spans of a line that starts in code are exactly its characters outside comments. */
  lemma {:induction false} SpansAreOutside(s: string, i: nat, p: nat)
    ensures Examined(s, i, p) <==> Outside(s, i, false, p)
    decreases |s| - i
  {
    if i < |s| {
      PieceIsOutside(s, i, p);
      SpansAreOutside(s, NextPiece(s, i).resume, p);
    }
  }

  // --- The carried flag -------------------------------------------------------------------

  /** Last position of `p` in `s`, or -1. */
  function RFind(s: string, p: Delimiter, below: nat): (i: int)
    ensures i >= 0 ==> i < below && IsAt(s, p, i)
    ensures forall j | 0 <= j < below && IsAt(s, p, j) :: j <= i
  {
    if below == 0 then -1
    else if IsAt(s, p, below - 1) then below - 1
    else RFind(s, p, below - 1)
  }

  /** Did the line open a block comment that stays open past it, judging by its last delimiters? */
  predicate OpensAtEnd(line: string) {
    var (open, close) := (RFind(line, OPEN, |line|), RFind(line, CLOSE, |line|));
    open >= 0 && close < open
  }

  lemma OpensAtEndIs(line: string)
    ensures OpensAtEnd(line) <==> OpenFrom(line, 0)
  {
    var (open, close) := (RFind(line, OPEN, |line|), RFind(line, CLOSE, |line|));
    if open >= 0 && close < open {
      forall k | open < k ensures !IsAt(line, CLOSE, k) {}
    }
    if OpenFrom(line, 0) {
      var j: nat :| 0 <= j && IsAt(line, OPEN, j) && forall k | j < k :: !IsAt(line, CLOSE, k);
      assert j <= open;
      assert close >= 0 ==> IsAt(line, CLOSE, close) && close <= j;
      assert close != j;
    }
  }

  /** A closed comment does not matter for what is open from there on. */
  lemma ClosedCommentDoesNotMatter(s: string, i: nat, close: nat)
    requires NoOverlap(s) && IsAt(s, CLOSE, close) && i <= close + 2
    ensures OpenFrom(s, i) <==> OpenFrom(s, close + 2)
  {
    if OpenFrom(s, i) {
      var j: nat :| i <= j && IsAt(s, OPEN, j) && forall k | j < k :: !IsAt(s, CLOSE, k);
      assert !IsAt(s, OPEN, close + 1);
      assert j >= close + 2;
    }
  }

  lemma UnclosedCase(s: string, i: nat, open: nat)
    requires i <= open && NoOverlap(s) && IsAt(s, OPEN, open) && forall k | open + 2 <= k :: !IsAt(s, CLOSE, k)
    requires forall k | i <= k < open :: !IsAt(s, SLASHES, k) && !IsAt(s, OPEN, k)
    ensures OpenFrom(s, i) && EndsInBlock(s, i, false) && !LeavesOpen(s, i, false)
  {
    CodeStretch(s, i, open, 0);
    AtOpen(s, open, 0);
    BlockStretch(s, open + 2, |s|, 0);
    forall k | open < k ensures !IsAt(s, CLOSE, k) {
      assert !IsAt(s, CLOSE, open + 1);
    }
  }

  /** The rest of the line is code, or a line comment. */
  lemma NoBlockCase(s: string, i: nat, end: nat)
    requires i <= end <= |s| && forall k | i <= k < end :: !IsAt(s, SLASHES, k) && !IsAt(s, OPEN, k)
    requires end == |s| || IsAt(s, SLASHES, end)
    ensures !EndsInBlock(s, i, false) && (OpenFrom(s, i) <==> LeavesOpen(s, i, false))
  {
    CodeStretch(s, i, end, 0);
    if OpenFrom(s, i) {
      var j: nat :| i <= j && IsAt(s, OPEN, j) && forall k | j < k :: !IsAt(s, CLOSE, k);
      assert j >= end;
    }
  }

  /** Past a closed comment, the state of the lexer is that of the code behind the comment. */
  lemma ClosedCaseState(s: string, i: nat, open: nat, close: nat)
    requires i <= open && IsAt(s, OPEN, open) && open + 2 <= close && IsAt(s, CLOSE, close)
    requires forall k | i <= k < open :: !IsAt(s, SLASHES, k) && !IsAt(s, OPEN, k)
    requires forall k | open + 2 <= k < close :: !IsAt(s, CLOSE, k)
    ensures EndsInBlock(s, i, false) == EndsInBlock(s, close + 2, false)
    ensures LeavesOpen(s, i, false) == LeavesOpen(s, close + 2, false)
  {
    CodeStretch(s, i, open, 0);
    AtOpen(s, open, 0);
    BlockStretch(s, open + 2, close, 0);
    AtClose(s, close, 0);
  }

  /** On a line without overlapping delimiters, the last delimiters tell that the lexer ends in a block
      comment, or that its last line comment leaves one open: one of the two, and never both. */
  lemma {:induction false} LastDelimitersTell(s: string, i: nat)
    requires i <= |s| && NoOverlap(s)
    ensures OpenFrom(s, i) <==> EndsInBlock(s, i, false) || LeavesOpen(s, i, false)
    ensures !(EndsInBlock(s, i, false) && LeavesOpen(s, i, false))
    decreases |s| - i
  {
    if i < |s| {
      var p := NextPiece(s, i);
      var open := p.end;
      var close := PieceCases(s, i);
      if p.end < |s| && IsAt(s, OPEN, p.end) {
        if close < 0 {
          UnclosedCase(s, i, open);
        } else {
          ClosedCaseState(s, i, open, close);
          LastDelimitersTell(s, close + 2);
          ClosedCommentDoesNotMatter(s, i, close);
        }
      } else {
        NoBlockCase(s, i, p.end);
      }
    }
  }

  // --- A whole file -----------------------------------------------------------------------

  predicate Has(s: string, p: string) { Find(s, p, 0) >= 0 }

  /** Lines the scan passes over: a pragma on the line or the one above, or text that is not rendered. */
  predicate Skipped(lines: seq<string>, n: nat)
    requires n < |lines|
  {
    || Has(lines[n], PRAGMA)
    || (n > 0 && Has(lines[n - 1], PRAGMA))
    || exists m | 0 <= m < |MARKERS| :: Has(lines[n], MARKERS[m])
  }

  /** What the scan examines of a line, and the flag it leaves. */
  function LineSpans(line: string, flag: bool): seq<string> {
    if !flag then Spans(line, 0)
    else
      var close := FindFrom(line, CLOSE, 0);
      if close < 0 then [] else Spans(line[close + 2..], 0)
  }

  predicate NextFlag(line: string, flag: bool) {
    if !flag then OpensAtEnd(line)
    else
      var close := FindFrom(line, CLOSE, 0);
      close < 0 || OpensAtEnd(line[close + 2..])
  }

  /** The flag the scan carries after n lines. */
  predicate Carried(lines: seq<string>, n: nat)
    requires n <= |lines|
  {
    n > 0 && if Skipped(lines, n - 1) then Carried(lines, n - 1) else NextFlag(lines[n - 1], Carried(lines, n - 1))
  }

  /** The lexer's state after n lines: is it inside a block comment? */
  predicate Lexed(lines: seq<string>, n: nat)
    requires n <= |lines|
  {
    n > 0 && EndsInBlock(lines[n - 1], 0, Lexed(lines, n - 1))
  }

  function Tag(n: nat, hits: seq<string>): seq<(nat, string)> {
    seq(|hits|, i requires 0 <= i < |hits| => (n, hits[i]))
  }

  function TagSpans(n: nat, hits: string -> seq<string>, spans: seq<string>): seq<(nat, string)> {
    if spans == [] then []
    else TagSpans(n, hits, spans[..|spans| - 1]) + Tag(n, hits(spans[|spans| - 1]))
  }

  /** The findings in the first n lines when `flag(k)` is the state before line k. */
  function Findings(lines: seq<string>, hits: string -> seq<string>, n: nat, flag: nat -> bool): seq<(nat, string)>
    requires n <= |lines|
  {
    if n == 0 then [] else Findings(lines, hits, n - 1, flag) + LineFindings(lines, hits, n, flag(n - 1))
  }

  function LineFindings(lines: seq<string>, hits: string -> seq<string>, n: nat, flag: bool): seq<(nat, string)>
    requires 0 < n <= |lines|
  {
    if Skipped(lines, n - 1) then [] else TagSpans(n, hits, LineSpans(lines[n - 1], flag))
  }

  function CarriedFlags(lines: seq<string>): nat -> bool { (n: nat) => n <= |lines| && Carried(lines, n) }

  function LexedFlags(lines: seq<string>): nat -> bool { (n: nat) => n <= |lines| && Lexed(lines, n) }

  method ScanSpans(n: nat, hits: string -> seq<string>, spans: seq<string>) returns (findings: seq<(nat, string)>)
    ensures findings == TagSpans(n, hits, spans)
  {
    findings := [];
    for k := 0 to |spans|
      invariant findings == TagSpans(n, hits, spans[..k])
    {
      assert spans[..k + 1][..k] == spans[..k];
      findings := findings + Tag(n, hits(spans[k]));
    }
    assert spans[..|spans|] == spans;
  }

  /** One line of the scan: its findings, and the flag it leaves. */
  method ScanLine(lines: seq<string>, hits: string -> seq<string>, i: nat, inBlockComment: bool)
    returns (found: seq<(nat, string)>, open: bool)
    requires i < |lines|
    ensures found == LineFindings(lines, hits, i + 1, inBlockComment)
    ensures open == if Skipped(lines, i) then inBlockComment else NextFlag(lines[i], inBlockComment)
  {
    if Skipped(lines, i) {
      return [], inBlockComment;
    }
    var line := lines[i];
    if inBlockComment {
      var close := FindFrom(line, CLOSE, 0);
      if close < 0 {
        return [], true;
      }
      line := line[close + 2..];
    }
    var spans := CodeSpans(line);
    found := ScanSpans(i + 1, hits, spans);
    open := OpensAtEnd(line);
  }

  /** The scan of one file. `hits` is the search for references in a span. */
  method Scan(lines: seq<string>, hits: string -> seq<string>) returns (findings: seq<(nat, string)>)
    ensures findings == Findings(lines, hits, |lines|, CarriedFlags(lines))
  {
    findings := [];
    var inBlockComment := false;
    for i := 0 to |lines|
      invariant inBlockComment == Carried(lines, i)
      invariant findings == Findings(lines, hits, i, CarriedFlags(lines))
    {
      var found;
      found, inBlockComment := ScanLine(lines, hits, i, inBlockComment);
      findings := findings + found;
    }
  }

  // --- The scan against the lexer -----------------------------------------------------------

  lemma AtInSuffix(s: string, o: nat, d: Delimiter, j: nat)
    requires o <= |s|
    ensures IsAt(s[o..], d, j) == IsAt(s, d, o + j)
  {
  }

  lemma OpenInSuffix(s: string, o: nat, i: nat)
    requires o <= |s|
    ensures OpenFrom(s[o..], i) <==> OpenFrom(s, o + i)
  {
    if OpenFrom(s[o..], i) {
      var j: nat :| i <= j && IsAt(s[o..], OPEN, j) && forall k | j < k :: !IsAt(s[o..], CLOSE, k);
      AtInSuffix(s, o, OPEN, j);
      forall k | o + j < k ensures !IsAt(s, CLOSE, k) { AtInSuffix(s, o, CLOSE, k - o); }
    }
    if OpenFrom(s, o + i) {
      var j: nat :| o + i <= j && IsAt(s, OPEN, j) && forall k | j < k :: !IsAt(s, CLOSE, k);
      AtInSuffix(s, o, OPEN, j - o);
      forall k: nat | j - o < k ensures !IsAt(s[o..], CLOSE, k) { AtInSuffix(s, o, CLOSE, k); }
    }
  }

  lemma {:induction false} OutsideInSuffix(s: string, o: nat, i: nat, block: bool, p: nat)
    requires o <= |s|
    ensures Outside(s[o..], i, block, p) == Outside(s, o + i, block, o + p)
    decreases |s| - o - i
  {
    if o + i < |s| {
      AtInSuffix(s, o, CLOSE, i);
      AtInSuffix(s, o, SLASHES, i);
      AtInSuffix(s, o, OPEN, i);
      OutsideInSuffix(s, o, i + 2, false, p);
      OutsideInSuffix(s, o, i + 2, true, p);
      OutsideInSuffix(s, o, i + 1, block, p);
    }
  }

  /** Position `p` of the line is in one of the spans examined on it. */
  predicate ExaminedOn(line: string, flag: bool, p: nat) {
    if !flag then Examined(line, 0, p)
    else
      var close := FindFrom(line, CLOSE, 0);
      close >= 0 && p >= close + 2 && Examined(line[close + 2..], 0, p - close - 2)
  }

  /** With the right flag at its start, what is examined on any line is exactly what is outside comments. */
  lemma LineSpansAreOutside(line: string, flag: bool, p: nat)
    ensures ExaminedOn(line, flag, p) <==> Outside(line, 0, flag, p)
  {
    if !flag {
      SpansAreOutside(line, 0, p);
    } else {
      var close := FindFrom(line, CLOSE, 0);
      FindsTheFirst(line, CLOSE, 0);
      if close < 0 {
        BlockStretch(line, 0, |line|, p);
      } else {
        BlockStretch(line, 0, close, p);
        AtClose(line, close, p);
        if p >= close + 2 {
          SpansAreOutside(line[close + 2..], 0, p - close - 2);
          OutsideInSuffix(line, close + 2, 0, false, p - close - 2);
        } else {
          NothingBefore(line, close + 2, p);
        }
      }
    }
  }

  lemma {:induction false} NothingBefore(s: string, i: nat, p: nat)
    requires p < i
    ensures !Outside(s, i, false, p)
  {
  }

  // --- The text of the spans --------------------------------------------------------------------

  /** From position `p` on, the characters that the lexer, reading from `i`, finds outside comments. */
  function OutsideFrom(s: string, i: nat, block: bool, p: nat): string
    decreases |s| - p
  {
    if p >= |s| then [] else (if Outside(s, i, block, p) then [s[p]] else []) + OutsideFrom(s, i, block, p + 1)
  }

  lemma {:induction false} AllKept(s: string, i: nat, block: bool, a: nat, b: nat)
    requires a <= b <= |s| && forall p | a <= p < b :: Outside(s, i, block, p)
    ensures OutsideFrom(s, i, block, a) == s[a..b] + OutsideFrom(s, i, block, b)
    decreases b - a
  {
    if a < b {
      AllKept(s, i, block, a + 1, b);
      assert OutsideFrom(s, i, block, a) == [s[a]] + OutsideFrom(s, i, block, a + 1);
      FirstOfSlice(s, a, b, OutsideFrom(s, i, block, b));
    } else {
      assert s[a..b] == [];
    }
  }

  lemma FirstOfSlice(s: string, a: nat, b: nat, tail: string)
    requires a < b <= |s|
    ensures [s[a]] + (s[a + 1..b] + tail) == s[a..b] + tail
  {
    assert s[a..b] == [s[a]] + s[a + 1..b];
  }

  lemma {:induction false} NoneKept(s: string, i: nat, block: bool, a: nat, b: nat)
    requires a <= b <= |s| && forall p | a <= p < b :: !Outside(s, i, block, p)
    ensures OutsideFrom(s, i, block, a) == OutsideFrom(s, i, block, b)
    decreases b - a
  {
    if a < b {
      NoneKept(s, i, block, a + 1, b);
    }
  }

  /** `t` is what is left of `s` from `d` on, and the two readings agree there. */
  lemma {:induction false} SameReading(s: string, i: nat, block: bool, p: nat, t: string, j: nat, block': bool, d: nat)
    requires d <= |s| && t == s[d..] && d <= p
    requires forall q | p <= q :: Outside(s, i, block, q) == Outside(t, j, block', q - d)
    ensures OutsideFrom(s, i, block, p) == OutsideFrom(t, j, block', p - d)
    decreases |s| - p
  {
    if p < |s| {
      SameReading(s, i, block, p + 1, t, j, block', d);
    }
  }

  lemma {:induction false} SpansAreTheCode(s: string, i: nat)
    requires i <= |s|
    ensures Concat(Spans(s, i)) == OutsideFrom(s, i, false, i)
    decreases |s| - i
  {
    if i < |s| {
      var piece := NextPiece(s, i);
      forall p: nat ensures Outside(s, i, false, p) <==> i <= p < piece.end || Outside(s, piece.resume, false, p) {
        PieceIsOutside(s, i, p);
      }
      AllKept(s, i, false, i, piece.end);
      if piece.end <= piece.resume {
        NoneKept(s, i, false, piece.end, piece.resume);
      }
      SameReading(s, i, false, piece.resume, s, piece.resume, false, 0);
      SpansAreTheCode(s, piece.resume);
      OneSpanMore(s[i..piece.end], Spans(s, piece.resume));
    }
  }

  lemma OneSpanMore(span: string, spans: seq<string>)
    ensures Concat([span] + spans) == span + Concat(spans)
  {
  }

  /** Put together, the spans examined on a line are the line without its comments. */
  lemma LineSpansAreTheCode(line: string, flag: bool)
    ensures Concat(LineSpans(line, flag)) == OutsideFrom(line, 0, flag, 0)
  {
    if !flag {
      SpansAreTheCode(line, 0);
    } else {
      FindsTheFirst(line, CLOSE, 0);
      var close := FindFrom(line, CLOSE, 0);
      if close < 0 {
        forall p: nat ensures !Outside(line, 0, true, p) {
          BlockStretch(line, 0, |line|, p);
        }
        NoneKept(line, 0, true, 0, |line|);
      } else {
        var d := close + 2;
        forall p: nat ensures Outside(line, 0, true, p) == Outside(line, d, false, p) {
          BlockStretch(line, 0, close, p);
          AtClose(line, close, p);
        }
        NoneKept(line, 0, true, 0, d);
        forall q | d <= q ensures Outside(line, 0, true, q) == Outside(line[d..], 0, false, q - d) {
          OutsideInSuffix(line, d, 0, false, q - d);
        }
        SameReading(line, 0, true, d, line[d..], 0, false, d);
        SpansAreTheCode(line[d..], 0);
      }
    }
  }

  /** The flag a line leaves: the lexer's state at its end, unless its line comment leaves a block comment
      open. */
  lemma NextFlagTells(line: string, flag: bool)
    requires NoOverlap(line)
    ensures NextFlag(line, flag) <==> EndsInBlock(line, 0, flag) || LeavesOpen(line, 0, flag)
    ensures !(EndsInBlock(line, 0, flag) && LeavesOpen(line, 0, flag))
  {
    if !flag {
      LastDelimitersTell(line, 0);
      OpensAtEndIs(line);
    } else {
      var close := FindFrom(line, CLOSE, 0);
      FindsTheFirst(line, CLOSE, 0);
      if close < 0 {
        BlockStretch(line, 0, |line|, 0);
      } else {
        BlockStretch(line, 0, close, 0);
        AtClose(line, close, 0);
        LastDelimitersTell(line, close + 2);
        OpensAtEndIs(line[close + 2..]);
        OpenInSuffix(line, close + 2, 0);
      }
    }
  }

  /** The lines the scan looks at have no overlapping delimiters. */
  ghost predicate NoOverlaps(lines: seq<string>) {
    forall n | 0 <= n < |lines| && !Skipped(lines, n) :: NoOverlap(lines[n])
  }

  /** A skipped line after which the lexer is in the state it was in before; any other line that leaves
      nothing open in its line comment. */
  ghost predicate KeepsTrack(lines: seq<string>, n: nat)
    requires n < |lines|
  {
    if Skipped(lines, n) then Lexed(lines, n + 1) == Lexed(lines, n) else !LeavesOpen(lines[n], 0, Lexed(lines, n))
  }

  ghost predicate AllKeepTrack(lines: seq<string>) {
    forall n | 0 <= n < |lines| :: KeepsTrack(lines, n)
  }

  ghost predicate FlagsMatch(lines: seq<string>) {
    forall n | 0 <= n <= |lines| :: Carried(lines, n) == Lexed(lines, n)
  }

  /** From a right flag, a line leads to a right flag exactly when it keeps track. */
  lemma LineKeepsTrack(lines: seq<string>, n: nat)
    requires n < |lines| && NoOverlaps(lines) && Carried(lines, n) == Lexed(lines, n)
    ensures Carried(lines, n + 1) == Lexed(lines, n + 1) <==> KeepsTrack(lines, n)
  {
    if !Skipped(lines, n) {
      NextFlagTells(lines[n], Lexed(lines, n));
    }
  }

  lemma {:induction false} FlagsAgree(lines: seq<string>, n: nat)
    requires n <= |lines| && NoOverlaps(lines)
    requires forall k | 0 <= k < n :: KeepsTrack(lines, k)
    ensures Carried(lines, n) == Lexed(lines, n)
  {
    if n > 0 {
      FlagsAgree(lines, n - 1);
      LineKeepsTrack(lines, n - 1);
    }
  }

  /** On files whose delimiters do not overlap, the carried flag is the lexer's state at every line end
      exactly when every skipped line leaves that state as it was, and no other line leaves a block comment
      open in its line comment. */
  lemma FlagIsLexedIffLinesKeepTrack(lines: seq<string>)
    requires NoOverlaps(lines)
    ensures FlagsMatch(lines) <==> AllKeepTrack(lines)
  {
    if AllKeepTrack(lines) {
      forall n | 0 <= n <= |lines| ensures Carried(lines, n) == Lexed(lines, n) {
        FlagsAgree(lines, n);
      }
    }
    if FlagsMatch(lines) {
      forall n | 0 <= n < |lines| ensures KeepsTrack(lines, n) {
        assert Carried(lines, n + 1) == Lexed(lines, n + 1);
        LineKeepsTrack(lines, n);
      }
    }
  }

  /** Under the same condition the scan reports what a scan guided by the lexer would. */
  lemma FindingsAreTheLexers(lines: seq<string>, hits: string -> seq<string>, n: nat)
    requires n <= |lines| && NoOverlaps(lines) && AllKeepTrack(lines)
    ensures Findings(lines, hits, n, CarriedFlags(lines)) == Findings(lines, hits, n, LexedFlags(lines))
  {
    FlagIsLexedIffLinesKeepTrack(lines);
    SameFlagsSameFindings(lines, hits, n, CarriedFlags(lines), LexedFlags(lines));
  }

  lemma {:induction false} SameFlagsSameFindings(lines: seq<string>, hits: string -> seq<string>, n: nat, f: nat -> bool, g: nat -> bool)
    requires n <= |lines| && forall k: nat | k <= |lines| :: f(k) == g(k)
    ensures Findings(lines, hits, n, f) == Findings(lines, hits, n, g)
  {
    if n > 0 {
      SameFlagsSameFindings(lines, hits, n - 1, f, g);
      assert f(n - 1) == g(n - 1);
    }
  }

  // --- What is reported -------------------------------------------------------------------------

  ghost predicate Contains(s: string, p: string) {
    exists before, after :: s == before + p + after
  }

  lemma HasIsContains(s: string, p: string)
    ensures Has(s, p) <==> Contains(s, p)
  {
    if Has(s, p) {
      var i := Find(s, p, 0);
      assert s == s[..i] + p + s[i + |p|..];
    }
    if before, after :| s == before + p + after {
      assert At(s, p, |before|);
    }
  }

  /** The lines that are passed over: the pragma is on the line or the one above, or a marker is on it. */
  lemma SkippedInPlainTerms(lines: seq<string>, n: nat)
    requires n < |lines|
    ensures Skipped(lines, n) <==>
      || Contains(lines[n], PRAGMA) || (n > 0 && Contains(lines[n - 1], PRAGMA))
      || exists marker | marker in MARKERS :: Contains(lines[n], marker)
  {
    HasIsContains(lines[n], PRAGMA);
    if n > 0 {
      HasIsContains(lines[n - 1], PRAGMA);
    }
    forall m | 0 <= m < |MARKERS| ensures Has(lines[n], MARKERS[m]) <==> Contains(lines[n], MARKERS[m]) {
      HasIsContains(lines[n], MARKERS[m]);
    }
  }

  /** The reference is in an examined stretch of the line. */
  ghost predicate Reports(lines: seq<string>, hits: string -> seq<string>, k: nat, flag: bool, hit: string)
    requires 0 < k <= |lines|
  {
    !Skipped(lines, k - 1) && exists span :: span in LineSpans(lines[k - 1], flag) && hit in hits(span)
  }

  lemma TagHas(n: nat, hits: seq<string>, k: nat, hit: string)
    ensures (k, hit) in Tag(n, hits) <==> k == n && hit in hits
  {
    if hit in hits {
      var i :| 0 <= i < |hits| && hits[i] == hit;
      assert Tag(n, hits)[i] == (n, hit);
    }
  }

  lemma {:induction false} TagSpansHave(n: nat, hits: string -> seq<string>, spans: seq<string>, k: nat, hit: string)
    ensures (k, hit) in TagSpans(n, hits, spans) <==> k == n && exists span :: span in spans && hit in hits(span)
  {
    if spans != [] {
      var (front, last) := (spans[..|spans| - 1], spans[|spans| - 1]);
      TagSpansHave(n, hits, front, k, hit);
      TagHas(n, hits(last), k, hit);
      assert spans == front + [last];
    }
  }

  lemma LineFindingsHave(lines: seq<string>, hits: string -> seq<string>, n: nat, flag: bool, k: nat, hit: string)
    requires 0 < n <= |lines|
    ensures (k, hit) in LineFindings(lines, hits, n, flag) <==> k == n && Reports(lines, hits, n, flag, hit)
  {
    TagSpansHave(n, hits, LineSpans(lines[n - 1], flag), k, hit);
  }

  predicate FoundOn(lines: seq<string>, hits: string -> seq<string>, i: nat, flag: nat -> bool, finding: (nat, string))
    requires 0 < i <= |lines|
  {
    finding in LineFindings(lines, hits, i, flag(i - 1))
  }

  /** The findings of all lines are those of each line. */
  lemma {:induction false} FindingsLineByLine(lines: seq<string>, hits: string -> seq<string>, n: nat, flag: nat -> bool, k: nat, hit: string)
    requires n <= |lines|
    requires forall i: nat | 0 < i <= n && i != k :: !FoundOn(lines, hits, i, flag, (k, hit))
    ensures (k, hit) in Findings(lines, hits, n, flag) <==> 0 < k <= n && FoundOn(lines, hits, k, flag, (k, hit))
  {
    if n > 0 {
      FindingsLineByLine(lines, hits, n - 1, flag, k, hit);
      assert n != k ==> !FoundOn(lines, hits, n, flag, (k, hit));
    }
  }

  /** A finding is a reference in an examined stretch of a line that is not passed over, with the number of
      the line, counted from one. */
  lemma FindingsInPlainTerms(lines: seq<string>, hits: string -> seq<string>, n: nat, flag: nat -> bool, k: nat, hit: string)
    requires n <= |lines|
    ensures (k, hit) in Findings(lines, hits, n, flag) <==> 0 < k <= n && Reports(lines, hits, k, flag(k - 1), hit)
  {
    forall i: nat | 0 < i <= n && i != k ensures !FoundOn(lines, hits, i, flag, (k, hit)) {
      LineFindingsHave(lines, hits, i, flag(i - 1), k, hit);
    }
    FindingsLineByLine(lines, hits, n, flag, k, hit);
    if 0 < k <= n {
      LineFindingsHave(lines, hits, k, flag(k - 1), k, hit);
    }
  }

  predicate ByLine(findings: seq<(nat, string)>, n: nat) {
    && (forall i | 0 <= i < |findings| :: findings[i].0 <= n)
    && forall i, j | 0 <= i < j < |findings| :: findings[i].0 <= findings[j].0
  }

  lemma ByLineAppend(a: seq<(nat, string)>, b: seq<(nat, string)>, n: nat)
    requires n > 0 && ByLine(a, n - 1) && forall i | 0 <= i < |b| :: b[i].0 == n
    ensures ByLine(a + b, n)
  {
  }

  lemma LineFindingsAreOfTheLine(lines: seq<string>, hits: string -> seq<string>, n: nat, flag: bool)
    requires 0 < n <= |lines|
    ensures forall i | 0 <= i < |LineFindings(lines, hits, n, flag)| :: LineFindings(lines, hits, n, flag)[i].0 == n
  {
    var found := LineFindings(lines, hits, n, flag);
    forall i | 0 <= i < |found| ensures found[i].0 == n {
      var (k, hit) := found[i];
      assert (k, hit) in found;
      LineFindingsHave(lines, hits, n, flag, k, hit);
    }
  }

  /** The findings are listed by line. */
  lemma {:induction false} FindingsAreByLine(lines: seq<string>, hits: string -> seq<string>, n: nat, flag: nat -> bool)
    requires n <= |lines|
    ensures ByLine(Findings(lines, hits, n, flag), n)
  {
    if n > 0 {
      FindingsAreByLine(lines, hits, n - 1, flag);
      LineFindingsAreOfTheLine(lines, hits, n, flag(n - 1));
      ByLineAppend(Findings(lines, hits, n - 1, flag), LineFindings(lines, hits, n, flag(n - 1)), n);
    }
  }

  // --- Lines that mislead the scan --------------------------------------------------------------

  const OPENED := "/*" + PRAGMA

  /** A skipped line that opens a block comment: the scan takes the next line for code. */
  lemma SkippedOpeningIsLost(text: string)
    ensures Skipped([OPENED, text], 0)
    ensures !Carried([OPENED, text], 1) && Lexed([OPENED, text], 1)
  {
    var lines := [OPENED, text];
    OpenedByPragma();
    assert Lexed(lines, 0) == false;
  }

  lemma OpenedByPragma()
    ensures Has(OPENED, PRAGMA) && EndsInBlock(OPENED, 0, false)
  {
    var s := OPENED;
    assert s[2..] == PRAGMA && s[0..2] == "/*";
    assert At(s, PRAGMA, 2);
    AtOpen(s, 0, 0);
    assert '*' !in PRAGMA;
    forall k | 2 <= k < |s| ensures !IsAt(s, CLOSE, k) {
      assert s[k] == PRAGMA[k - 2];
    }
    BlockStretch(s, 2, |s|, 0);
  }

  /** A line comment that leaves a block comment open: the scan takes the next line for a comment. */
  lemma OpeningInALineCommentMisleads()
    ensures NoOverlap("///*") && LeavesOpen("///*", 0, false)
    ensures OpensAtEnd("///*") && !EndsInBlock("///*", 0, false)
  {
    var s := "///*";
    assert IsAt(s, SLASHES, 0) && IsAt(s, OPEN, 2) && forall k: nat :: !IsAt(s, CLOSE, k);
    OpensAtEndIs(s);
  }

  /** Overlapping delimiters mislead it both ways: after the first line the lexer is in a block comment and
      the scan is not, after the second it is the other way round. */
  lemma OverlapsMislead()
    ensures !OpensAtEnd("/*/") && EndsInBlock("/*/", 0, false)
    ensures OpensAtEnd("/**/*") && !EndsInBlock("/**/*", 0, false)
  {
    var (s, t) := ("/*/", "/**/*");
    assert IsAt(s, OPEN, 0) && IsAt(s, CLOSE, 1) && !IsAt(s, OPEN, 1) && !IsAt(s, OPEN, 2);
    OpensAtEndIs(s);
    assert EndsInBlock(s, 0, false) == EndsInBlock(s, 2, true) == EndsInBlock(s, 3, true) == true;
    assert IsAt(t, OPEN, 0) && IsAt(t, CLOSE, 2) && IsAt(t, OPEN, 3) && !IsAt(t, CLOSE, 3) && !IsAt(t, CLOSE, 4);
    OpensAtEndIs(t);
    assert EndsInBlock(t, 0, false) == EndsInBlock(t, 2, true) == EndsInBlock(t, 4, false) == EndsInBlock(t, 5, false) == false;
  }
}
