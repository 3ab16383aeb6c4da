/** Redaction in `zilli/security/pii.py`: masks spliced in from the last finding to the first,
    and exactly when that is the redaction it is meant to be. */
module Redaction {

  datatype Finding = Finding(start: nat, end: nat)

  /** Python slices stop at the end of the string. */
  function Take(s: string, n: nat): string {
    if n <= |s| then s[..n] else s
  }

  function Drop(s: string, n: nat): string {
    if n <= |s| then s[n..] else []
  }

  function Max(a: nat, b: nat): nat {
    if a < b then b else a
  }

  /** Splicing in the mask for the last finding, then the one before, and so on. */
  function SpliceBack(text: string, findings: seq<Finding>, mask: string): string {
    if findings == [] then text else
      var s := SpliceBack(text, findings[1..], mask);
      Take(s, findings[0].start) + mask + Drop(s, findings[0].end)
  }

  method Sanitize(text: string, findings: seq<Finding>, mask: string) returns (sanitized: string)
    ensures sanitized == SpliceBack(text, findings, mask)
    ensures forall f :: findings == [f] && f.start <= f.end <= |text| ==>
              sanitized == text[..f.start] + mask + text[f.end..]
  {
    sanitized := text;
    for i := |findings| downto 0
      invariant sanitized == SpliceBack(text, findings[i..], mask)
    {
      assert findings[i..][1..] == findings[i + 1..];
      sanitized := Take(sanitized, findings[i].start) + mask + Drop(sanitized, findings[i].end);
    }
    assert findings[0..] == findings;
  }

  /** What detection yields: spans of the text, in ascending order of their starts. */
  ghost predicate Spans(findings: seq<Finding>, length: nat) {
    && (forall i :: 0 <= i < |findings| ==> findings[i].start <= findings[i].end <= length)
    && forall i, j :: 0 <= i < j < |findings| ==> findings[i].start <= findings[j].start
  }

  /** None of them is empty; only a custom pattern can match the empty text. */
  ghost predicate Solid(findings: seq<Finding>) {
    forall i :: 0 <= i < |findings| ==> findings[i].start < findings[i].end
  }

  lemma SpansTail(findings: seq<Finding>, length: nat)
    requires Spans(findings, length) && findings != []
    ensures Spans(findings[1..], length)
    ensures |findings| > 1 ==> findings[0].start <= findings[1..][0].start
  {
  }

  /** The intended result, read from the left: the text outside all spans, and a mask for each. */
  ghost function Redacted(text: string, findings: seq<Finding>, mask: string, from: nat): string
    requires Spans(findings, |text|) && from <= |text|
    decreases |findings|
  {
    if findings == [] then text[from..]
    else
      var f := findings[0];
      SpansTail(findings, |text|);
      text[from..Max(from, f.start)] + mask + Redacted(text, findings[1..], mask, Max(from, f.end))
  }

  /** Place i lies in one of the spans. */
  ghost predicate Covered(findings: seq<Finding>, i: int) {
    exists k :: 0 <= k < |findings| && findings[k].start <= i < findings[k].end
  }

  /** The characters from place i on that lie in no span. */
  ghost function Outside(text: string, findings: seq<Finding>, i: nat): string
    decreases |text| - i
  {
    if i >= |text| then ""
    else (if Covered(findings, i) then "" else [text[i]]) + Outside(text, findings, i + 1)
  }

  lemma {:induction false} OutsideSkips(text: string, findings: seq<Finding>, from: nat, to: nat)
    requires from <= to <= |text| && forall i :: from <= i < to ==> Covered(findings, i)
    ensures Outside(text, findings, from) == Outside(text, findings, to)
    decreases |text| - from
  {
    if from < to { OutsideSkips(text, findings, from + 1, to); }
  }

  lemma {:induction false} OutsideKeeps(text: string, findings: seq<Finding>, from: nat, to: nat)
    requires from <= to <= |text| && forall i :: from <= i < to ==> !Covered(findings, i)
    ensures Outside(text, findings, from) == text[from..to] + Outside(text, findings, to)
    decreases |text| - from
  {
    if from < to {
      OutsideKeeps(text, findings, from + 1, to);
      GlueFirst(text, from, to, Outside(text, findings, to));
    }
  }

  lemma GlueFirst(text: string, from: nat, to: nat, rest: string)
    requires from < to <= |text|
    ensures [text[from]] + (text[from + 1..to] + rest) == text[from..to] + rest
  {
    assert text[from..to] == [text[from]] + text[from + 1..to];
  }

  lemma {:induction false} OutsideTail(text: string, findings: seq<Finding>, i: nat)
    requires findings != [] && findings[0].end <= i
    ensures Outside(text, findings, i) == Outside(text, findings[1..], i)
    decreases |text| - i
  {
    if i < |text| {
      CoveredTail(findings, i);
      OutsideTail(text, findings, i + 1);
    }
  }

  lemma CoveredTail(findings: seq<Finding>, i: int)
    requires findings != []
    ensures Covered(findings, i) <==> findings[0].start <= i < findings[0].end || Covered(findings[1..], i)
  {
    if Covered(findings[1..], i) {
      var k :| 0 <= k < |findings[1..]| && findings[1..][k].start <= i < findings[1..][k].end;
      assert findings[k + 1] == findings[1..][k];
    }
    if Covered(findings, i) {
      var k :| 0 <= k < |findings| && findings[k].start <= i < findings[k].end;
      if k > 0 { assert findings[1..][k - 1] == findings[k]; }
    }
  }

  lemma NotBefore(findings: seq<Finding>, length: nat, i: int)
    requires Spans(findings, length) && findings != [] && i < findings[0].start
    ensures !Covered(findings, i)
  {
  }

  lemma OutsideFirst(text: string, findings: seq<Finding>, from: nat)
    requires Spans(findings, |text|) && from <= |text| && findings != []
    ensures Max(from, findings[0].end) <= |text|
    ensures Outside(text, findings, from)
         == text[from..Max(from, findings[0].start)] + Outside(text, findings[1..], Max(from, findings[0].end))
  {
    var f := findings[0];
    var start, end := Max(from, f.start), Max(from, f.end);
    forall i | from <= i < start ensures !Covered(findings, i) { NotBefore(findings, |text|, i); }
    forall i | start <= i < end ensures Covered(findings, i) { CoveredTail(findings, i); }
    OutsideKeeps(text, findings, from, start);
    OutsideSkips(text, findings, start, end);
    OutsideTail(text, findings, end);
  }

  /** Without its masks the intended result is the text outside all spans. */
  lemma {:induction false} RedactedOutside(text: string, findings: seq<Finding>, from: nat)
    requires Spans(findings, |text|) && from <= |text|
    ensures Redacted(text, findings, "", from) == Outside(text, findings, from)
    decreases |findings|
  {
    if findings == [] {
      OutsideKeeps(text, findings, from, |text|);
      assert text[from..|text|] == text[from..];
    } else {
      SpansTail(findings, |text|);
      RedactedOutside(text, findings[1..], Max(from, findings[0].end));
      OutsideFirst(text, findings, from);
    }
  }

  lemma LengthFirst(text: string, findings: seq<Finding>, mask: string, from: nat)
    requires Spans(findings, |text|) && from <= |text| && findings != []
    ensures Spans(findings[1..], |text|) && Max(from, findings[0].end) <= |text|
    ensures |Redacted(text, findings, mask, from)|
         == Max(from, findings[0].start) - from + |mask|
            + |Redacted(text, findings[1..], mask, Max(from, findings[0].end))|
  {
    SpansTail(findings, |text|);
  }

  /** And each span adds one mask. */
  lemma {:induction false} RedactedLength(text: string, findings: seq<Finding>, mask: string, from: nat)
    requires Spans(findings, |text|) && from <= |text|
    ensures |Redacted(text, findings, mask, from)|
         == |Redacted(text, findings, "", from)| + |findings| * |mask|
    decreases |findings|
  {
    if findings != [] {
      LengthFirst(text, findings, mask, from);
      LengthFirst(text, findings, "", from);
      RedactedLength(text, findings[1..], mask, Max(from, findings[0].end));
      OneMoreMask(|findings|, |mask|);
    }
  }

  lemma OneMoreMask(n: nat, length: nat)
    requires n > 0
    ensures n * length == (n - 1) * length + length
  {
  }

  /** Each span starts where the ones before it have ended. */
  predicate Disjoint(findings: seq<Finding>, from: nat) {
    findings == [] || (from <= findings[0].start && Disjoint(findings[1..], findings[0].end))
  }

  /** The spans leave no gap from `from` to the end of the text. */
  predicate CoverRest(findings: seq<Finding>, from: nat, length: nat) {
    if findings == [] then from >= length
    else findings[0].start <= from && CoverRest(findings[1..], Max(from, findings[0].end), length)
  }

  /** Disjoint spans; or an empty mask, and the spans are disjoint up to one from which on
      everything is covered, so that nothing is left to be put in the wrong place. */
  predicate Harmless(findings: seq<Finding>, mask: string, from: nat, length: nat) {
    findings == []
    || (from <= findings[0].start
        && (Harmless(findings[1..], mask, findings[0].end, length)
            || (mask == "" && CoverRest(findings[1..], findings[0].end, length))))
  }

  lemma {:induction false} HarmlessIffDisjoint(findings: seq<Finding>, mask: string, from: nat, length: nat)
    requires mask != ""
    ensures Harmless(findings, mask, from, length) <==> Disjoint(findings, from)
  {
    if findings != [] { HarmlessIffDisjoint(findings[1..], mask, findings[0].end, length); }
  }

  // ----- lengths: overlapping spans lose characters or masks -----

  /** Starting later drops at most what lies between, and less if a span has begun by then. */
  lemma {:induction false} LaterStart(text: string, findings: seq<Finding>, mask: string, from: nat, later: nat)
    requires Spans(findings, |text|) && from <= later <= |text|
    requires findings != [] ==> from <= findings[0].start
    ensures |Redacted(text, findings, mask, later)| >= |Redacted(text, findings, mask, from)| - (later - from)
    ensures findings != [] && findings[0].start < later && findings[0].start < findings[0].end ==>
              |Redacted(text, findings, mask, later)| > |Redacted(text, findings, mask, from)| - (later - from)
    decreases |findings|
  {
    if findings != [] {
      var f := findings[0];
      SpansTail(findings, |text|);
      LaterEnd(text, findings[1..], mask, f.end, Max(later, f.end));
    }
  }

  lemma {:induction false} LaterEnd(text: string, findings: seq<Finding>, mask: string, from: nat, later: nat)
    requires Spans(findings, |text|) && from <= later <= |text|
    ensures |Redacted(text, findings, mask, later)| >= |Redacted(text, findings, mask, from)| - (later - from)
    decreases |findings|
  {
    if findings != [] {
      var f := findings[0];
      SpansTail(findings, |text|);
      LaterEnd(text, findings[1..], mask, Max(from, f.end), Max(later, f.end));
    }
  }

  lemma {:induction false} NothingLeft(text: string, findings: seq<Finding>, mask: string, from: nat)
    requires Spans(findings, |text|) && from <= |text|
    ensures Redacted(text, findings, mask, from) == "" <==>
              (findings == [] || mask == "") && CoverRest(findings, from, |text|)
    decreases |findings|
  {
    if findings != [] {
      SpansTail(findings, |text|);
      NothingLeft(text, findings[1..], mask, Max(from, findings[0].end));
    }
  }

  /** The splice keeps the text before the first span. */
  lemma {:induction false} SpliceKeepsHead(text: string, findings: seq<Finding>, mask: string)
    requires Spans(findings, |text|) && findings != []
    ensures var s, start := SpliceBack(text, findings, mask), findings[0].start;
            start <= |s| && s[..start] == text[..start]
    ensures |SpliceBack(text, findings[1..], mask)| >= findings[0].start
    decreases |findings|
  {
    SpansTail(findings, |text|);
    var start, s := findings[0].start, SpliceBack(text, findings[1..], mask);
    if |findings| > 1 { SpliceKeepsHead(text, findings[1..], mask); }
    assert start <= |s| && s[..start] == text[..start];
  }

  /** The splice is never longer than the redaction, and as long, unless some spans are empty,
      only if the spans are harmless. */
  lemma {:induction false} SpliceShorter(text: string, findings: seq<Finding>, mask: string)
    requires Spans(findings, |text|)
    ensures var s, r := SpliceBack(text, findings, mask), Redacted(text, findings, mask, 0);
            |s| <= |r| && (Solid(findings) && |s| == |r| ==> Harmless(findings, mask, 0, |text|))
    decreases |findings|
  {
    if findings != [] {
      var f, rest := findings[0], findings[1..];
      SpansTail(findings, |text|);
      SpliceKeepsHead(text, findings, mask);
      SpliceShorter(text, rest, mask);
      LaterStart(text, rest, mask, 0, f.end);
      NothingLeft(text, rest, mask, f.end);
      if rest == [] || f.end <= rest[0].start { HarmlessLater(rest, mask, f.end, |text|); }
    }
  }

  lemma HarmlessLater(findings: seq<Finding>, mask: string, from: nat, length: nat)
    requires findings != [] ==> from <= findings[0].start
    ensures Harmless(findings, mask, 0, length) <==> Harmless(findings, mask, from, length)
  {
  }

  // ----- when splicing is redaction -----

  lemma RedactedLater(text: string, findings: seq<Finding>, mask: string, from: nat, later: nat)
    requires Spans(findings, |text|) && from <= later <= |text| && (findings != [] ==> later <= findings[0].start)
    ensures Redacted(text, findings, mask, from) == text[from..later] + Redacted(text, findings, mask, later)
  {
    if findings == [] {
      assert text[from..] == text[from..later] + text[later..];
    } else {
      var f := findings[0];
      SpansTail(findings, |text|);
      assert Max(from, f.start) == f.start == Max(later, f.start) && Max(from, f.end) == f.end == Max(later, f.end);
      Regroup(text, from, later, f.start, mask, Redacted(text, findings[1..], mask, f.end));
    }
  }

  lemma Regroup(text: string, from: nat, later: nat, start: nat, mask: string, rest: string)
    requires from <= later <= start <= |text|
    ensures text[from..start] + mask + rest == text[from..later] + (text[later..start] + mask + rest)
  {
    assert text[from..start] == text[from..later] + text[later..start];
  }

  lemma {:induction false} HarmlessSplice(text: string, findings: seq<Finding>, mask: string)
    requires Spans(findings, |text|) && Harmless(findings, mask, 0, |text|)
    ensures SpliceBack(text, findings, mask) == Redacted(text, findings, mask, 0)
    decreases |findings|
  {
    if findings != [] {
      var f, rest := findings[0], findings[1..];
      SpansTail(findings, |text|);
      if Harmless(rest, mask, f.end, |text|) {
        HarmlessLater(rest, mask, f.end, |text|);
        HarmlessSplice(text, rest, mask);
        RedactedLater(text, rest, mask, 0, f.end);
        assert text[0..f.end] == text[..f.end];
        SpliceOne(text, f, mask, SpliceBack(text, rest, mask), Redacted(text, rest, mask, f.end));
      } else {
        NothingLeft(text, rest, mask, f.end);
        SpliceShorter(text, findings, mask);
        SpliceKeepsHead(text, findings, mask);
        assert Redacted(text, findings, mask, 0) == text[..f.start];
      }
    }
  }

  lemma SpliceOne(text: string, f: Finding, mask: string, s: string, rest: string)
    requires f.start <= f.end <= |text| && s == text[..f.end] + rest
    ensures Take(s, f.start) + mask + Drop(s, f.end) == text[0..f.start] + mask + rest
  {
    assert Take(s, f.start) == text[0..f.start] && Drop(s, f.end) == rest;
  }

  /** The splice is the redaction exactly when the spans are harmless. */
  lemma RedactsIff(text: string, findings: seq<Finding>, mask: string)
    requires Spans(findings, |text|) && Solid(findings)
    ensures SpliceBack(text, findings, mask) == Redacted(text, findings, mask, 0)
       <==> Harmless(findings, mask, 0, |text|)
  {
    SpliceShorter(text, findings, mask);
    if Harmless(findings, mask, 0, |text|) { HarmlessSplice(text, findings, mask); }
  }

  /** With a mask to be seen, that means: exactly when the spans are disjoint. */
  lemma SanitizeRedacts(text: string, findings: seq<Finding>, mask: string)
    requires Spans(findings, |text|) && Solid(findings) && mask != ""
    ensures SpliceBack(text, findings, mask) == Redacted(text, findings, mask, 0) <==> Disjoint(findings, 0)
  {
    RedactsIff(text, findings, mask);
    HarmlessIffDisjoint(findings, mask, 0, |text|);
  }

  // ----- empty spans and an empty mask: such spans can be left out -----

  function Visible(findings: seq<Finding>): seq<Finding> {
    if findings == [] then [] else
      (if findings[0].start < findings[0].end then [findings[0]] else []) + Visible(findings[1..])
  }

  lemma {:induction false} VisibleSpans(findings: seq<Finding>, length: nat)
    requires Spans(findings, length)
    ensures Spans(Visible(findings), length) && Solid(Visible(findings))
    ensures forall f :: f in Visible(findings) ==> f in findings
  {
    if findings != [] {
      SpansTail(findings, length);
      VisibleSpans(findings[1..], length);
      var f, rest := findings[0], Visible(findings[1..]);
      forall g | g in rest ensures f.start <= g.start {
        assert g in findings[1..];
      }
      if f.start < f.end { SpansCons(f, rest, length); }
      VisibleFirst(findings);
    }
  }

  lemma SpansCons(f: Finding, rest: seq<Finding>, length: nat)
    requires Spans(rest, length) && Solid(rest) && f.start < f.end <= length
    requires forall g :: g in rest ==> f.start <= g.start
    ensures Spans([f] + rest, length) && Solid([f] + rest)
  {
  }

  lemma {:induction false} VisibleSplice(text: string, findings: seq<Finding>)
    requires Spans(findings, |text|)
    ensures SpliceBack(text, findings, "") == SpliceBack(text, Visible(findings), "")
  {
    if findings != [] {
      var f, rest := findings[0], Visible(findings[1..]);
      SpansTail(findings, |text|);
      VisibleSplice(text, findings[1..]);
      VisibleFirst(findings);
      SpliceFirst(text, findings, "");
      if f.start < f.end {
        SpliceFirst(text, Visible(findings), "");
      } else {
        NothingSpliced(SpliceBack(text, rest, ""), f.start);
      }
    }
  }

  lemma SpliceFirst(text: string, findings: seq<Finding>, mask: string)
    requires findings != []
    ensures var s := SpliceBack(text, findings[1..], mask);
            SpliceBack(text, findings, mask) == Take(s, findings[0].start) + mask + Drop(s, findings[0].end)
  {
  }

  lemma VisibleFirst(findings: seq<Finding>)
    requires findings != []
    ensures var rest := Visible(findings[1..]);
            if findings[0].start < findings[0].end
            then Visible(findings) != [] && Visible(findings)[0] == findings[0] && Visible(findings)[1..] == rest
            else Visible(findings) == rest
  {
  }

  lemma NothingSpliced(s: string, n: nat)
    ensures Take(s, n) + "" + Drop(s, n) == s
  {
  }

  lemma {:induction false} VisibleRedacted(text: string, findings: seq<Finding>, from: nat)
    requires Spans(findings, |text|) && from <= |text|
    ensures Spans(Visible(findings), |text|)
    ensures Redacted(text, findings, "", from) == Redacted(text, Visible(findings), "", from)
    decreases |findings|
  {
    VisibleSpans(findings, |text|);
    if findings != [] {
      var f, rest := findings[0], Visible(findings[1..]);
      SpansTail(findings, |text|);
      VisibleSpans(findings[1..], |text|);
      VisibleRedacted(text, findings[1..], Max(from, f.end));
      VisibleFirst(findings);
      if f.start == f.end {
        SkipEmpty(text, findings, rest, from);
      } else {
        SameFirst(text, findings, Visible(findings), from);
      }
    }
  }

  lemma SameFirst(text: string, x: seq<Finding>, y: seq<Finding>, from: nat)
    requires Spans(x, |text|) && Spans(y, |text|) && from <= |text|
    requires x != [] && y != [] && x[0] == y[0] && Spans(x[1..], |text|) && Spans(y[1..], |text|)
    requires Redacted(text, x[1..], "", Max(from, x[0].end)) == Redacted(text, y[1..], "", Max(from, x[0].end))
    ensures Redacted(text, x, "", from) == Redacted(text, y, "", from)
  {
  }

  lemma SkipEmpty(text: string, findings: seq<Finding>, rest: seq<Finding>, from: nat)
    requires Spans(findings, |text|) && findings != [] && Spans(findings[1..], |text|) && Spans(rest, |text|)
    requires findings[0].start == findings[0].end && from <= |text| && forall f :: f in rest ==> f in findings[1..]
    requires var later := Max(from, findings[0].end);
             Redacted(text, findings[1..], "", later) == Redacted(text, rest, "", later)
    ensures Redacted(text, findings, "", from) == Redacted(text, rest, "", from)
  {
    var f := findings[0];
    var later := Max(from, f.start);
    assert text[from..later] + "" == text[from..later];
    if from <= f.start {
      if rest != [] { assert rest[0] in findings[1..]; }
      RedactedLater(text, rest, "", from, later);
    } else {
      assert text[from..later] == "";
    }
  }

  /** With an empty mask, the spans that are not empty decide. */
  lemma EmptyMaskRedactsIff(text: string, findings: seq<Finding>)
    requires Spans(findings, |text|)
    ensures SpliceBack(text, findings, "") == Redacted(text, findings, "", 0)
       <==> Harmless(Visible(findings), "", 0, |text|)
  {
    VisibleSpans(findings, |text|);
    VisibleSplice(text, findings);
    VisibleRedacted(text, findings, 0);
    RedactsIff(text, Visible(findings), "");
  }

  // ----- empty spans and a mask to be seen: the masks that arrive whole -----

  function Marks(s: string, c: char): nat {
    if s == "" then 0 else Marks(s[..|s| - 1], c) + (if s[|s| - 1] == c then 1 else 0)
  }

  lemma {:induction false} MarksConcat(s: string, t: string, c: char)
    ensures Marks(s + t, c) == Marks(s, c) + Marks(t, c)
  {
    if t == "" {
      assert s + t == s;
    } else {
      assert (s + t)[..|s + t| - 1] == s + t[..|t| - 1];
      MarksConcat(s, t[..|t| - 1], c);
    }
  }

  lemma {:induction false} NoMarks(s: string, c: char)
    requires c !in s
    ensures Marks(s, c) == 0
  {
    if s != "" { NoMarks(s[..|s| - 1], c); }
  }

  /** Dropping a part drops its marks, and there is one if the part holds one. */
  lemma DropMarks(s: string, n: nat, c: char)
    ensures Marks(Drop(s, n), c) <= Marks(s, c)
    ensures forall i :: 0 <= i < |s| && i < n && s[i] == c ==> Marks(Drop(s, n), c) < Marks(s, c)
  {
    var head := Take(s, n);
    assert s == head + Drop(s, n);
    MarksConcat(head, Drop(s, n), c);
    forall i | 0 <= i < |s| && i < n && s[i] == c ensures Marks(head, c) > 0 {
      assert head == head[..i] + [head[i]] + head[i + 1..];
      MarksConcat(head[..i] + [head[i]], head[i + 1..], c);
      MarksConcat(head[..i], [head[i]], c);
    }
  }

  /** In a text without marks, the redaction has those of one mask for each span. */
  lemma RedactedMarks(text: string, findings: seq<Finding>, mask: string, from: nat, c: char)
    requires Spans(findings, |text|) && from <= |text| && c !in text && findings != []
    ensures Spans(findings[1..], |text|)
    ensures Marks(Redacted(text, findings, mask, from), c)
         == Marks(mask, c) + Marks(Redacted(text, findings[1..], mask, Max(from, findings[0].end)), c)
  {
    var f := findings[0];
    SpansTail(findings, |text|);
    var head, rest := text[from..Max(from, f.start)], Redacted(text, findings[1..], mask, Max(from, f.end));
    NoMarks(head, c);
    MarksConcat(head, mask, c);
    MarksConcat(head + mask, rest, c);
  }

  lemma {:induction false} MarksAnyStart(text: string, findings: seq<Finding>, mask: string, from: nat, from': nat,
                                         c: char)
    requires Spans(findings, |text|) && from <= |text| && from' <= |text| && c !in text
    ensures Marks(Redacted(text, findings, mask, from), c) == Marks(Redacted(text, findings, mask, from'), c)
    decreases |findings|
  {
    if findings == [] {
      NoMarks(text[from..], c);
      NoMarks(text[from'..], c);
    } else {
      var end := findings[0].end;
      RedactedMarks(text, findings, mask, from, c);
      RedactedMarks(text, findings, mask, from', c);
      MarksAnyStart(text, findings[1..], mask, Max(from, end), Max(from', end), c);
    }
  }

  lemma SpliceMarks(text: string, findings: seq<Finding>, mask: string, c: char)
    requires Spans(findings, |text|) && c !in text && findings != []
    ensures var rest := SpliceBack(text, findings[1..], mask);
            Marks(SpliceBack(text, findings, mask), c) == Marks(mask, c) + Marks(Drop(rest, findings[0].end), c)
    ensures mask != "" ==> |SpliceBack(text, findings, mask)| > findings[0].start
                           && SpliceBack(text, findings, mask)[findings[0].start] == mask[0]
  {
    SpliceKeepsHead(text, findings, mask);
    var f, s := findings[0], SpliceBack(text, findings[1..], mask);
    SpansTail(findings, |text|);
    var head := Take(s, f.start);
    if |findings| > 1 { SpliceKeepsHead(text, findings[1..], mask); }
    assert head == text[..f.start];
    NoMarks(head, c);
    MarksConcat(head, mask, c);
    MarksConcat(head + mask, Drop(s, f.end), c);
  }

  /** The splice has no more marks than the redaction, and fewer if the spans overlap. */
  lemma {:induction false} FewerMarks(text: string, findings: seq<Finding>, mask: string)
    requires Spans(findings, |text|) && mask != "" && mask[0] !in text
    ensures var s, r := SpliceBack(text, findings, mask), Redacted(text, findings, mask, 0);
            Marks(s, mask[0]) <= Marks(r, mask[0])
            && (!Disjoint(findings, 0) ==> Marks(s, mask[0]) < Marks(r, mask[0]))
  {
    if findings != [] {
      var c, f, rest := mask[0], findings[0], findings[1..];
      SpansTail(findings, |text|);
      FewerMarks(text, rest, mask);
      SpliceMarks(text, findings, mask, c);
      RedactedMarks(text, findings, mask, 0, c);
      MarksAnyStart(text, rest, mask, f.end, 0, c);
      var s := SpliceBack(text, rest, mask);
      DropMarks(s, f.end, c);
      assert rest == [] ==> Disjoint(rest, f.end);
      if rest != [] {
        SpliceMarks(text, rest, mask, c);
        assert rest[0].start < |s| && s[rest[0].start] == c;
        assert Disjoint(rest, 0) && f.end <= rest[0].start ==> Disjoint(findings, 0);
      }
    }
  }

  /** Empty spans or not: the splice is the redaction, whatever the text, exactly when the spans
      are disjoint. */
  lemma AlwaysRedactsIff(findings: seq<Finding>, mask: string, length: nat)
    requires Spans(findings, length) && mask != ""
    ensures (forall text :: |text| == length ==> SpliceBack(text, findings, mask) == Redacted(text, findings, mask, 0))
       <==> Disjoint(findings, 0)
  {
    HarmlessIffDisjoint(findings, mask, 0, length);
    if Disjoint(findings, 0) {
      forall text: string | |text| == length
        ensures SpliceBack(text, findings, mask) == Redacted(text, findings, mask, 0)
      {
        HarmlessSplice(text, findings, mask);
      }
    } else {
      var other := if mask[0] == 'a' then 'b' else 'a';
      var text := seq(length, _ => other);
      FewerMarks(text, findings, mask);
      assert SpliceBack(text, findings, mask) != Redacted(text, findings, mask, 0);
    }
  }

  /** An instance of the other side: a span within a span cuts the mask, and a character of
      the outer span survives. */
  lemma NestedSpanLeaks()
    ensures var outer, inner := Finding(0, 6), Finding(2, 4);
            SpliceBack("secret", [outer, inner], "***") == "***t" && !Disjoint([outer, inner], 0)
  {
    var inner := [Finding(2, 4)];
    assert [Finding(0, 6), Finding(2, 4)][1..] == inner && inner[1..] == [];
    assert SpliceBack("secret", [], "***") == "secret";
    assert SpliceBack("secret", inner, "***") == "se" + "***" + "et" == "se***et";
    assert Drop("se***et", 6) == "t";
  }
}
