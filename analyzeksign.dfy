/** The `/analyzeksign` command (src/commands/analyzeksign.js): a best-effort
    sniffer that reads a `.ksign` upload as bytes, runs four format checks in
    a fixed order (PEM, ZIP, property list, DER), each of which overwrites the
    result of the earlier ones when it fires, and lists the certificates and
    the private key it finds on the way. */
module KsignAnalysis {
  import opened Wrappers
  import opened Text
  import opened Certificate
  import opened Folds

  type Byte = b: int | 0 <= b < 256

  /** `buffer.toString('binary')`: each byte becomes the character with that
      code (Latin-1). */
  function Latin1(bytes: seq<Byte>): (s: string)
    ensures |s| == |bytes| && forall i | 0 <= i < |bytes| :: s[i] as int == bytes[i]
  {
    seq(|bytes|, i requires 0 <= i < |bytes| => bytes[i] as char)
  }

  // ---------------------------------------------------------------------
  // Hex preview

  function HexDigit(d: int): char
    requires 0 <= d < 16
  {
    if d < 10 then ('0' as int + d) as char else ('a' as int + d - 10) as char
  }

  predicate IsHexDigit(c: char) {
    '0' <= c <= '9' || 'a' <= c <= 'f'
  }

  function DigitValue(c: char): (d: int)
    requires IsHexDigit(c)
    ensures 0 <= d < 16
  {
    if '0' <= c <= '9' then c as int - '0' as int else c as int - 'a' as int + 10
  }

  /** `buffer.toString('hex')`: two lower-case digits per byte, high nibble
      first. */
  function Hex(bytes: seq<Byte>): (hex: string)
    ensures |hex| == 2 * |bytes|
    ensures forall i | 0 <= i < |hex| :: IsHexDigit(hex[i])
    decreases |bytes|
  {
    if bytes == [] then []
    else [HexDigit(bytes[0] / 16), HexDigit(bytes[0] % 16)] + Hex(bytes[1..])
  }

  /** Reads lower-case hex back into bytes. */
  function Unhex(hex: string): seq<Byte>
    requires |hex| % 2 == 0 && forall i | 0 <= i < |hex| :: IsHexDigit(hex[i])
    decreases |hex|
  {
    if hex == [] then []
    else [DigitValue(hex[0]) * 16 + DigitValue(hex[1])] + Unhex(hex[2..])
  }

  /** The hex text holds the bytes exactly: reading it back gives them again. */
  lemma {:induction false} UnhexHex(bytes: seq<Byte>)
    ensures Unhex(Hex(bytes)) == bytes
    decreases |bytes|
  {
    if bytes != [] {
      var b := bytes[0];
      var hex := Hex(bytes);
      assert hex[2..] == Hex(bytes[1..]);
      assert DigitValue(HexDigit(b / 16)) == b / 16;
      assert DigitValue(HexDigit(b % 16)) == b % 16;
      UnhexHex(bytes[1..]);
    }
  }

  /** `buffer.slice(0, 100).toString('hex')` */
  function HexPreview(bytes: seq<Byte>): (preview: string)
    ensures |preview| == 2 * (if |bytes| < 100 then |bytes| else 100)
    ensures forall i | 0 <= i < |preview| :: IsHexDigit(preview[i])
  {
    Hex(bytes[..if |bytes| < 100 then |bytes| else 100])
  }

  /** The preview encodes exactly the first hundred bytes (or all of a shorter
      file). */
  lemma HexPreviewDecodes(bytes: seq<Byte>)
    ensures Unhex(HexPreview(bytes)) == bytes[..if |bytes| < 100 then |bytes| else 100]
  {
    UnhexHex(bytes[..if |bytes| < 100 then |bytes| else 100]);
  }

  // ---------------------------------------------------------------------
  // DER

  /** The fields of a BER/DER identifier octet, section 8.1.2 of ITU-T X.690:
      the class in bits 8-7, the constructed flag in bit 6, the tag number in
      bits 5-1. */
  function TagClass(b: Byte): int { b / 64 }
  predicate IsConstructed(b: Byte) { (b / 32) % 2 == 1 }
  function TagNumber(b: Byte): int { b % 32 }

  /** A constructed universal tag number 16: a SEQUENCE (section 8.9 of X.690),
      which is how every DER certificate starts. */
  predicate IsSequenceTag(b: Byte) {
    TagClass(b) == 0 && IsConstructed(b) && TagNumber(b) == 16
  }

  /** 0x30 is the one identifier octet of a SEQUENCE. */
  lemma SequenceTagIs0x30(b: Byte)
    ensures IsSequenceTag(b) <==> b == 0x30
  {
    if IsSequenceTag(b) {
      assert b == 64 * TagClass(b) + 32 * ((b / 32) % 2) + TagNumber(b);
    }
  }

  /** `isLikelyDerCertificate`: at least ten bytes, the first of them the
      identifier octet of a SEQUENCE. */
  function IsLikelyDerCertificate(buffer: seq<Byte>): (likely: bool)
    ensures likely <==> |buffer| >= 10 && IsSequenceTag(buffer[0])
  {
    if |buffer| < 10 then false
    else
      SequenceTagIs0x30(buffer[0]);
      buffer[0] == 0x30
  }

  // ---------------------------------------------------------------------
  // PEM blocks: /-----BEGIN [A-Z ]+-----[^-]*-----END [A-Z ]+-----/g

  predicate IsLabelChar(c: char) {
    'A' <= c <= 'Z' || c == ' '
  }

  /** The end of the run of label characters that starts at `i`. */
  function LabelEnd(s: string, i: nat): (j: nat)
    requires i <= |s|
    ensures i <= j <= |s|
    decreases |s| - i
  {
    if i < |s| && IsLabelChar(s[i]) then LabelEnd(s, i + 1) else i
  }

  /** The end of the run of characters other than `-` that starts at `i`. */
  function BodyEnd(s: string, i: nat): (j: nat)
    requires i <= |s|
    ensures i <= j <= |s|
    decreases |s| - i
  {
    if i < |s| && s[i] != '-' then BodyEnd(s, i + 1) else i
  }

  const Begin: string := "-----BEGIN "
  const End: string := "-----END "
  const Dashes: string := "-----"

  /** `[A-Z ]+-----` from `i`: where the closing dashes end, if the label is
      not empty and the dashes follow it. */
  function ClosedLabel(s: string, i: nat): (e: Option<nat>)
    requires i <= |s|
    ensures e.Some? ==> i < e.value <= |s| && OccursAt(s, Dashes, e.value - 5)
  {
    var b := LabelEnd(s, i);
    if b == i || !OccursAt(s, Dashes, b) then None else Some(b + 5)
  }

  /** Where a match of the PEM pattern that starts at `i` ends, if one does.
      The match is unique: `[A-Z ]+` and `[^-]*` cannot give characters
      back to the `-----` that follows them, so backtracking finds no other
      split than the longest run. */
  function MatchAt(s: string, i: nat): (e: Option<nat>)
    ensures e.Some? ==>
      i < e.value <= |s| && OccursAt(s, Begin, i) && OccursAt(s, Dashes, e.value - 5)
  {
    if !OccursAt(s, Begin, i) then None else AfterBegin(s, ClosedLabel(s, i + |Begin|))
  }

  /** The rest of the pattern once `-----BEGIN [A-Z ]+-----` has ended at
      `h`: `[^-]*-----END [A-Z ]+-----`. */
  function AfterBegin(s: string, h: Option<nat>): (e: Option<nat>)
    requires h.Some? ==> h.value <= |s|
    ensures e.Some? ==> h.Some? && h.value < e.value <= |s| && OccursAt(s, Dashes, e.value - 5)
  {
    if h.None? then None
    else
      var d := BodyEnd(s, h.value);
      if OccursAt(s, End, d) then ClosedLabel(s, d + |End|) else None
  }

  /** Position `q` lies in one of the spans. */
  ghost predicate Covered(spans: seq<(nat, nat)>, q: int) {
    exists k :: 0 <= k < |spans| && spans[k].0 <= q < spans[k].1
  }

  /** A sticky matcher over positions `0..n`: a match that starts at `q`
      ends after `q` and no later than `n`. */
  ghost predicate IsMatcher(matchAt: nat -> Option<nat>, n: nat) {
    forall q: nat :: matchAt(q).Some? ==> q < matchAt(q).value <= n
  }
  /** A global search (the `g` flag) from position `p` on: try a match at
      `p`; on success resume where it ended, otherwise one position on. */
  function Scan(matchAt: nat -> Option<nat>, n: nat, p: nat): seq<(nat, nat)>
    requires p <= n && IsMatcher(matchAt, n)
    decreases n - p
  {
    if p == n then []
    else match matchAt(p)
      case None => Scan(matchAt, n, p + 1)
      case Some(e) => [(p, e)] + Scan(matchAt, n, e)
  }

  /** Every span is a match that starts at or after `p`. */
  lemma {:induction false} ScanMatches(matchAt: nat -> Option<nat>, n: nat, p: nat)
    requires p <= n && IsMatcher(matchAt, n)
    ensures forall k | 0 <= k < |Scan(matchAt, n, p)| ::
      p <= Scan(matchAt, n, p)[k].0 && matchAt(Scan(matchAt, n, p)[k].0) == Some(Scan(matchAt, n, p)[k].1)
    decreases n - p
  {
    if p < n {
      match matchAt(p)
      case None =>
        assert Scan(matchAt, n, p) == Scan(matchAt, n, p + 1);
        ScanMatches(matchAt, n, p + 1);
      case Some(e) =>
        ScanMatches(matchAt, n, e);
        var rest := Scan(matchAt, n, e);
        var spans := Scan(matchAt, n, p);
        assert spans == [(p, e)] + rest;
        forall k | 0 <= k < |spans|
          ensures p <= spans[k].0 && matchAt(spans[k].0) == Some(spans[k].1)
        {
          if k > 0 {
            assert spans[k] == rest[k - 1];
          }
        }
    }
  }

  /** The spans come in order and do not overlap. */
  lemma {:induction false} ScanOrdered(matchAt: nat -> Option<nat>, n: nat, p: nat)
    requires p <= n && IsMatcher(matchAt, n)
    ensures forall j, k | 0 <= j < k < |Scan(matchAt, n, p)| ::
      Scan(matchAt, n, p)[j].1 <= Scan(matchAt, n, p)[k].0
    decreases n - p
  {
    if p < n {
      match matchAt(p)
      case None =>
        assert Scan(matchAt, n, p) == Scan(matchAt, n, p + 1);
        ScanOrdered(matchAt, n, p + 1);
      case Some(e) =>
        ScanOrdered(matchAt, n, e);
        ScanMatches(matchAt, n, e);
        var rest := Scan(matchAt, n, e);
        var spans := Scan(matchAt, n, p);
        assert spans == [(p, e)] + rest;
        forall j, k | 0 <= j < k < |spans|
          ensures spans[j].1 <= spans[k].0
        {
          assert spans[k] == rest[k - 1] && e <= rest[k - 1].0;
          if j > 0 {
            assert spans[j] == rest[j - 1];
          }
        }
    }
  }

  /** No match is skipped: every position from `p` on where a match could
      start lies inside one of the spans. */
  lemma {:induction false} ScanCovers(matchAt: nat -> Option<nat>, n: nat, p: nat)
    requires p <= n && IsMatcher(matchAt, n)
    ensures forall q | p <= q <= n && matchAt(q).Some? :: Covered(Scan(matchAt, n, p), q)
    decreases n - p
  {
    if p < n {
      match matchAt(p)
      case None =>
        ScanCovers(matchAt, n, p + 1);
      case Some(e) =>
        ScanCovers(matchAt, n, e);
        var rest := Scan(matchAt, n, e);
        var spans := Scan(matchAt, n, p);
        assert spans == [(p, e)] + rest;
        forall q | p <= q <= n && matchAt(q).Some?
          ensures Covered(spans, q)
        {
          if q < e {
            assert spans[0].0 <= q < spans[0].1;
          } else {
            var k :| 0 <= k < |rest| && rest[k].0 <= q < rest[k].1;
            assert spans[k + 1] == rest[k];
          }
        }
    }
  }

  /** The PEM pattern as a matcher over `content`. */
  function PemMatcher(content: string): (m: nat -> Option<nat>)
    ensures IsMatcher(m, |content|)
    ensures forall q: nat :: m(q) == MatchAt(content, q)
  {
    q => MatchAt(content, q)
  }

  /** `extractPemBlocks`: `content.match(pemRegex) || []`. */
  function ExtractPemBlocks(content: string): seq<string> {
    var spans := Scan(PemMatcher(content), |content|, 0);
    ScanMatches(PemMatcher(content), |content|, 0);
    seq(|spans|, k requires 0 <= k < |spans| => content[spans[k].0..spans[k].1])
  }

  /** A block is found only in text that contains a BEGIN line. */
  lemma BlocksNeedBegin(content: string)
    ensures ExtractPemBlocks(content) != [] ==> Contains(content, Begin)
  {
    var spans := Scan(PemMatcher(content), |content|, 0);
    ScanMatches(PemMatcher(content), |content|, 0);
    ContainsSpec(content, Begin);
    if spans != [] {
      assert OccursAt(content, Begin, spans[0].0);
    }
  }

  /** Every block starts with a BEGIN line and ends with five dashes. */
  lemma BlocksAreFramed(content: string)
    ensures forall k | 0 <= k < |ExtractPemBlocks(content)| ::
      StartsWith(ExtractPemBlocks(content)[k], Begin)
      && EndsWith(ExtractPemBlocks(content)[k], Dashes)
  {
    var spans := Scan(PemMatcher(content), |content|, 0);
    ScanMatches(PemMatcher(content), |content|, 0);
    var blocks := ExtractPemBlocks(content);
    forall k | 0 <= k < |blocks|
      ensures StartsWith(blocks[k], Begin) && EndsWith(blocks[k], Dashes)
    {
      var a, e := spans[k].0, spans[k].1;
      assert MatchAt(content, a) == Some(e);
      assert blocks[k] == content[a..e];
      MatchFramed(content, a);
    }
  }

  /** One match starts with a BEGIN line and ends with five dashes. */
  lemma MatchFramed(s: string, a: nat)
    requires MatchAt(s, a).Some?
    ensures StartsWith(s[a..MatchAt(s, a).value], Begin)
    ensures EndsWith(s[a..MatchAt(s, a).value], Dashes)
  {
    var l1, d, l2 := MatchStages(s, a);
    FramedSlice(s, a, l2);
  }

  /** A slice with a BEGIN line at its start and dashes at its end. */
  lemma FramedSlice(s: string, a: nat, l: nat)
    requires a + |Begin| <= l && OccursAt(s, Begin, a) && OccursAt(s, Dashes, l)
    ensures StartsWith(s[a..l + 5], Begin) && EndsWith(s[a..l + 5], Dashes)
  {
    var block := s[a..l + 5];
    assert block[..|Begin|] == s[a..a + |Begin|];
    assert block[|block| - 5..] == s[l..l + 5];
  }

  predicate AllLabelChars(title: string) {
    forall k | 0 <= k < |title| :: IsLabelChar(title[k])
  }

  /** The run of label characters from `i` ends where the label does. */
  lemma {:induction false} LabelEndAt(s: string, i: nat, j: nat)
    requires i <= j <= |s|
    requires forall k | i <= k < j :: IsLabelChar(s[k])
    requires j < |s| ==> !IsLabelChar(s[j])
    ensures LabelEnd(s, i) == j
    decreases j - i
  {
    if i < j {
      LabelEndAt(s, i + 1, j);
    }
  }

  /** The run of characters other than `-` from `i` ends where the body does. */
  lemma {:induction false} BodyEndAt(s: string, i: nat, j: nat)
    requires i <= j < |s|
    requires forall k | i <= k < j :: s[k] != '-'
    requires s[j] == '-'
    ensures BodyEnd(s, i) == j
    decreases j - i
  {
    if i < j {
      BodyEndAt(s, i + 1, j);
    }
  }

  /** A label followed by five dashes is a closed label. */
  lemma ClosedLabelAt(s: string, i: nat, title: string)
    requires title != [] && AllLabelChars(title)
    requires OccursAt(s, title + Dashes, i)
    ensures ClosedLabel(s, i) == Some(i + |title| + 5)
  {
    var j := i + |title|;
    assert s[i..j + 5] == title + Dashes;
    assert forall k | i <= k < j :: s[k] == title[k - i];
    assert s[j] == '-';
    LabelEndAt(s, i, j);
    assert s[j..j + 5] == Dashes;
  }

  function PemBlock(title: string, body: string, endTitle: string): string {
    Begin + (title + Dashes + (body + (End + (endTitle + Dashes))))
  }

  /** MatchAt assembled from its stages. */
  lemma MatchAtFromStages(s: string, i: nat, h: nat, d: nat, e: nat)
    requires OccursAt(s, Begin, i) && ClosedLabel(s, i + |Begin|) == Some(h)
    requires h <= |s| && BodyEnd(s, h) == d && OccursAt(s, End, d)
    requires ClosedLabel(s, d + |End|) == Some(e)
    ensures MatchAt(s, i) == Some(e)
  {
    AfterBeginFromStages(s, h, d, e);
  }

  /** AfterBegin assembled from its stages. */
  lemma AfterBeginFromStages(s: string, h: nat, d: nat, e: nat)
    requires h <= |s| && BodyEnd(s, h) == d && OccursAt(s, End, d)
    requires ClosedLabel(s, d + |End|) == Some(e)
    ensures AfterBegin(s, Some(h)) == Some(e)
  {
  }

  /** A well-formed block: labels of label characters, a body without `-`. */
  predicate WellFormedBlock(title: string, body: string, endTitle: string) {
    title != [] && AllLabelChars(title) && endTitle != [] && AllLabelChars(endTitle)
    && '-' !in body
  }

  /** Past a prefix `a`, the label run in `a + b` is the one in `b`. */
  lemma {:induction false} LabelEndShift(a: string, b: string, i: nat)
    requires i <= |b|
    ensures LabelEnd(a + b, |a| + i) == |a| + LabelEnd(b, i)
    decreases |b| - i
  {
    if i < |b| {
      assert (a + b)[|a| + i] == b[i];
      if IsLabelChar(b[i]) {
        LabelEndShift(a, b, i + 1);
      }
    }
  }

  /** Past a prefix `a`, the body run in `a + b` is the one in `b`. */
  lemma {:induction false} BodyEndShift(a: string, b: string, i: nat)
    requires i <= |b|
    ensures BodyEnd(a + b, |a| + i) == |a| + BodyEnd(b, i)
    decreases |b| - i
  {
    if i < |b| {
      assert (a + b)[|a| + i] == b[i];
      if b[i] != '-' {
        BodyEndShift(a, b, i + 1);
      }
    }
  }

  /** Past a prefix `a`, a closed label in `a + b` is the one in `b`. */
  lemma ClosedLabelShift(a: string, b: string, i: nat, e: nat)
    requires i <= |b| && ClosedLabel(b, i) == Some(e)
    ensures ClosedLabel(a + b, |a| + i) == Some(|a| + e)
  {
    LabelEndShift(a, b, i);
    OccursShift(a, b, Dashes, LabelEnd(b, i));
  }

  /** The first label of a well-formed block, and its dashes. */
  lemma PemBlockFirstLabel(title: string, body: string, endTitle: string)
    requires WellFormedBlock(title, body, endTitle)
    ensures ClosedLabel(PemBlock(title, body, endTitle), |Begin|) == Some(|Begin| + |title| + 5)
  {
    var t2 := body + (End + (endTitle + Dashes));
    var t1 := title + Dashes + t2;
    OccursAtStart(title + Dashes, t2);
    ClosedLabelAt(t1, 0, title);
    ClosedLabelShift(Begin, t1, 0, |title| + 5);
  }

  /** The body of a well-formed block runs up to its END line. */
  lemma PemBlockBody(title: string, body: string, endTitle: string)
    requires WellFormedBlock(title, body, endTitle)
    ensures var h := |Begin| + |title| + 5;
      BodyEnd(PemBlock(title, body, endTitle), h) == h + |body|
      && OccursAt(PemBlock(title, body, endTitle), End, h + |body|)
  {
    var t4 := endTitle + Dashes;
    var t3 := End + t4;
    var t2 := body + t3;
    var t1 := title + Dashes + t2;
    assert forall k | 0 <= k < |body| :: t2[k] == body[k];
    assert t2[|body|] == '-';
    BodyEndAt(t2, 0, |body|);
    BodyEndShift(title + Dashes, t2, 0);
    BodyEndShift(Begin, t1, |title| + 5);
    OccursAtStart(End, t4);
    OccursShift(body, t3, End, 0);
    OccursShift(title + Dashes, t2, End, |body|);
    OccursShift(Begin, t1, End, |title| + 5 + |body|);
  }

  /** The second label of a well-formed block, and the dashes that end it. */
  lemma PemBlockSecondLabel(title: string, body: string, endTitle: string)
    requires WellFormedBlock(title, body, endTitle)
    ensures var f := |Begin| + |title| + 5 + |body| + |End|;
      ClosedLabel(PemBlock(title, body, endTitle), f) == Some(|PemBlock(title, body, endTitle)|)
  {
    var t4 := endTitle + Dashes;
    var t3 := End + t4;
    var t2 := body + t3;
    var t1 := title + Dashes + t2;
    assert t4[0..|t4|] == t4;
    ClosedLabelAt(t4, 0, endTitle);
    ClosedLabelShift(End, t4, 0, |t4|);
    ClosedLabelShift(body, t3, |End|, |t3|);
    ClosedLabelShift(title + Dashes, t2, |body| + |End|, |t2|);
    ClosedLabelShift(Begin, t1, |title| + 5 + |body| + |End|, |t1|);
  }

  /** A well-formed block matches at its start and runs to its end. */
  lemma PemBlockMatches(title: string, body: string, endTitle: string)
    requires WellFormedBlock(title, body, endTitle)
    ensures MatchAt(PemBlock(title, body, endTitle), 0) == Some(|PemBlock(title, body, endTitle)|)
  {
    var s := PemBlock(title, body, endTitle);
    var h := |Begin| + |title| + 5;
    OccursAtStart(Begin, s[|Begin|..]);
    assert Begin + s[|Begin|..] == s;
    PemBlockFirstLabel(title, body, endTitle);
    PemBlockBody(title, body, endTitle);
    PemBlockSecondLabel(title, body, endTitle);
    MatchAtFromStages(s, 0, h, h + |body|, |s|);
  }

  /** Everything in the run of label characters from `i` is a label
      character. */
  lemma {:induction false} LabelEndChars(s: string, i: nat)
    requires i <= |s|
    ensures forall k | i <= k < LabelEnd(s, i) :: IsLabelChar(s[k])
    decreases |s| - i
  {
    if i < |s| && IsLabelChar(s[i]) {
      LabelEndChars(s, i + 1);
    }
  }

  /** Nothing in the run from `i` up to `BodyEnd` is a `-`. */
  lemma {:induction false} BodyEndChars(s: string, i: nat)
    requires i <= |s|
    ensures forall k | i <= k < BodyEnd(s, i) :: s[k] != '-'
    decreases |s| - i
  {
    if i < |s| && s[i] != '-' {
      BodyEndChars(s, i + 1);
    }
  }

  /** The positions a match passes through: the end of the first label,
      the end of the body and the end of the second label; the text between
      them is a well-formed block's parts. */
  lemma MatchStages(s: string, i: nat) returns (l1: nat, d: nat, l2: nat)
    requires MatchAt(s, i).Some?
    ensures i + |Begin| < l1 && l1 + 5 <= d && d + |End| < l2 && l2 + 5 == MatchAt(s, i).value
    ensures OccursAt(s, Begin, i) && OccursAt(s, Dashes, l1)
    ensures OccursAt(s, End, d) && OccursAt(s, Dashes, l2)
    ensures WellFormedBlock(s[i + |Begin|..l1], s[l1 + 5..d], s[d + |End|..l2])
  {
    MatchAtStage(s, i);
    l1 := ClosedLabelStage(s, i + |Begin|);
    d, l2 := AfterBeginStages(s, l1 + 5);
  }

  /** A match starts with a BEGIN line and a closed label after it. */
  lemma MatchAtStage(s: string, i: nat)
    requires MatchAt(s, i).Some?
    ensures OccursAt(s, Begin, i) && ClosedLabel(s, i + |Begin|).Some?
    ensures MatchAt(s, i) == AfterBegin(s, ClosedLabel(s, i + |Begin|))
  {
  }

  /** A closed label ends at the end of its run of label characters, where
      five dashes follow. */
  lemma ClosedLabelStage(s: string, i: nat) returns (l: nat)
    requires i <= |s| && ClosedLabel(s, i).Some?
    ensures i < l && l + 5 <= |s| && OccursAt(s, Dashes, l)
    ensures AllLabelChars(s[i..l])
    ensures ClosedLabel(s, i) == Some(l + 5)
  {
    l := LabelEnd(s, i);
    LabelEndChars(s, i);
    assert AllLabelChars(s[i..l]) by {
      forall k | 0 <= k < l - i ensures IsLabelChar(s[i..l][k]) {
        assert s[i..l][k] == s[i + k];
      }
    }
  }

  /** The positions the rest of a match passes through: the end of the body
      and the end of the second label. */
  lemma AfterBeginStages(s: string, h: nat) returns (d: nat, l2: nat)
    requires h <= |s| && AfterBegin(s, Some(h)).Some?
    ensures h <= d && d + |End| < l2 && l2 + 5 <= |s| && l2 + 5 == AfterBegin(s, Some(h)).value
    ensures OccursAt(s, End, d) && OccursAt(s, Dashes, l2)
    ensures '-' !in s[h..d] && AllLabelChars(s[d + |End|..l2])
  {
    d := BodyEnd(s, h);
    BodyEndChars(s, h);
    assert '-' !in s[h..d] by {
      forall k | 0 <= k < d - h ensures s[h..d][k] != '-' {
        assert s[h..d][k] == s[h + k];
      }
    }
    assert OccursAt(s, End, d) && AfterBegin(s, Some(h)) == ClosedLabel(s, d + |End|);
    l2 := ClosedLabelStage(s, d + |End|);
  }

  /** A slice cut at six inner positions is the concatenation of the seven
      pieces, grouped as `PemBlock` groups them. */
  lemma SliceSeven(s: string, a: nat, b: nat, c: nat, d: nat, e: nat, f: nat, g: nat, h: nat)
    requires a <= b <= c <= d <= e <= f <= g <= h <= |s|
    ensures s[a..h] == s[a..b] + (s[b..c] + s[c..d] + (s[d..e] + (s[e..f] + (s[f..g] + s[g..h]))))
  {
    assert s[f..h] == s[f..g] + s[g..h];
    assert s[e..h] == s[e..f] + s[f..h];
    assert s[d..h] == s[d..e] + s[e..h];
    assert s[b..h] == s[b..c] + s[c..d] + s[d..h];
    assert s[a..h] == s[a..b] + s[b..h];
  }

  /** `text` is one well-formed block. */
  ghost predicate IsPemBlock(text: string) {
    exists title, body, endTitle ::
      && WellFormedBlock(title, body, endTitle)
      && text == PemBlock(title, body, endTitle)
  }

  /** Text with the BEGIN line at `i`, dashes at `l1`, the END line at `d`
      and dashes at `l2` is the block of the text between them. */
  lemma BlockOfStages(s: string, i: nat, l1: nat, d: nat, l2: nat)
    requires OccursAt(s, Begin, i) && i + |Begin| <= l1 && OccursAt(s, Dashes, l1)
    requires l1 + 5 <= d && OccursAt(s, End, d)
    requires d + |End| <= l2 && OccursAt(s, Dashes, l2)
    ensures s[i..l2 + 5] == PemBlock(s[i + |Begin|..l1], s[l1 + 5..d], s[d + |End|..l2])
  {
    var h1, h, h2, e := i + |Begin|, l1 + 5, d + |End|, l2 + 5;
    SliceSeven(s, i, h1, l1, h, d, h2, l2, e);
    assert s[i..h1] == Begin && s[l1..h] == Dashes && s[d..h2] == End && s[l2..e] == Dashes;
    calc {
      s[i..e];
      s[i..h1] + (s[h1..l1] + s[l1..h] + (s[h..d] + (s[d..h2] + (s[h2..l2] + s[l2..e]))));
      Begin + (s[h1..l1] + Dashes + (s[h..d] + (End + (s[h2..l2] + Dashes))));
    }
  }

  /** The converse of `PemBlockMatches`: whatever the pattern matches is a
      well-formed block, a BEGIN line with a label of `[A-Z ]`, a body free
      of `-`, and an END line with such a label. */
  lemma MatchIsBlock(s: string, i: nat) returns (title: string, body: string, endTitle: string)
    requires MatchAt(s, i).Some?
    ensures WellFormedBlock(title, body, endTitle)
    ensures s[i..MatchAt(s, i).value] == PemBlock(title, body, endTitle)
  {
    var l1, d, l2 := MatchStages(s, i);
    title, body, endTitle := s[i + |Begin|..l1], s[l1 + 5..d], s[d + |End|..l2];
    BlockOfStages(s, i, l1, d, l2);
  }

  /** Whatever the pattern matches is one well-formed block. */
  lemma MatchIsPemBlock(s: string, i: nat)
    requires MatchAt(s, i).Some?
    ensures IsPemBlock(s[i..MatchAt(s, i).value])
  {
    var title, body, endTitle := MatchIsBlock(s, i);
  }

  /** Every block found is a well-formed block. */
  lemma BlocksAreWellFormed(content: string)
    ensures forall k | 0 <= k < |ExtractPemBlocks(content)| :: IsPemBlock(ExtractPemBlocks(content)[k])
  {
    var spans := Scan(PemMatcher(content), |content|, 0);
    ScanMatches(PemMatcher(content), |content|, 0);
    forall k | 0 <= k < |ExtractPemBlocks(content)|
      ensures IsPemBlock(ExtractPemBlocks(content)[k])
    {
      assert MatchAt(content, spans[k].0) == Some(spans[k].1);
      assert ExtractPemBlocks(content)[k] == content[spans[k].0..spans[k].1];
      MatchIsPemBlock(content, spans[k].0);
    }
  }

  /** A single well-formed block is found whole. The labels need not agree:
      the pattern is looser than the encapsulation boundaries of section 2
      of RFC 7468, which require the same label on both lines. */
  lemma SingleBlockFound(title: string, body: string, endTitle: string)
    requires WellFormedBlock(title, body, endTitle)
    ensures ExtractPemBlocks(PemBlock(title, body, endTitle)) == [PemBlock(title, body, endTitle)]
  {
    var s := PemBlock(title, body, endTitle);
    var m := PemMatcher(s);
    PemBlockMatches(title, body, endTitle);
    assert m(0) == Some(|s|);
    assert Scan(m, |s|, |s|) == [];
    assert Scan(m, |s|, 0) == [(0, |s|)];
    assert s[0..|s|] == s;
  }

  // ---------------------------------------------------------------------
  // Common names

  /** A JavaScript value handed to `getCommonName`: an array of attributes,
      or a forge distinguished-name object (which has `attributes` but no
      `length`). */
  datatype JsValue = AttributeArray(items: seq<Attribute>) | NameObject(dn: DistinguishedName)

  /** `getCommonName(attributes)`: it loops while `i < attributes.length`; on
      an object without `length` the test `0 < undefined` is false, the loop
      never runs and the result is 'Unknown'. */
  function GetCommonName(v: JsValue): string {
    match v
    case AttributeArray(items) => CommonNameOf(items)
    case NameObject(_) => "Unknown"
  }

  /** The subject name as lines 163 and 217 compute it: `getCommonName` is
      handed `cert.subject` itself, so every certificate reads 'Unknown'. */
  function SubjectNameAsWritten(cert: Cert): (name: string)
    ensures name == "Unknown"
  {
    GetCommonName(NameObject(cert.subject))
  }

  /** The issuer name as lines 164 and 218 compute it, with the same slip. */
  function IssuerNameAsWritten(cert: Cert): (name: string)
    ensures name == "Unknown"
  {
    GetCommonName(NameObject(cert.issuer))
  }

  /** A certificate from "CA" to "Alice" is reported as from 'Unknown' to
      'Unknown' as written, and with both names once the attributes are
      passed. */
  lemma CommonNamesLost()
    ensures var cert := Cert(DistinguishedName([Attribute("commonName", "Alice")]),
                             DistinguishedName([Attribute("commonName", "CA")]), "01", 0, 1);
      && SubjectNameAsWritten(cert) == "Unknown" && SubjectName(cert) == "Alice"
      && IssuerNameAsWritten(cert) == "Unknown" && IssuerName(cert) == "CA"
  {
  }

  /** The subject name as intended: what `getCommonName` returns on the
      subject's attributes, the value of the first `commonName` among them,
      or 'Unknown' when there is none. */
  function SubjectName(cert: Cert): (name: string)
    ensures name == GetCommonName(AttributeArray(cert.subject.attributes))
    ensures (forall k | 0 <= k < |cert.subject.attributes| :: cert.subject.attributes[k].name != "commonName")
      ==> name == "Unknown"
    ensures forall k | 0 <= k < |cert.subject.attributes| && cert.subject.attributes[k].name == "commonName"
      && (forall j | 0 <= j < k :: cert.subject.attributes[j].name != "commonName")
      :: name == cert.subject.attributes[k].value
  {
    CommonNameOf(cert.subject.attributes)
  }

  /** The issuer name as intended, read the same way from the issuer. */
  function IssuerName(cert: Cert): (name: string)
    ensures name == GetCommonName(AttributeArray(cert.issuer.attributes))
    ensures (forall k | 0 <= k < |cert.issuer.attributes| :: cert.issuer.attributes[k].name != "commonName")
      ==> name == "Unknown"
    ensures forall k | 0 <= k < |cert.issuer.attributes| && cert.issuer.attributes[k].name == "commonName"
      && (forall j | 0 <= j < k :: cert.issuer.attributes[j].name != "commonName")
      :: name == cert.issuer.attributes[k].value
  {
    CommonNameOf(cert.issuer.attributes)
  }

  /** The first `commonName` is the name reported; with none it is 'Unknown'. */
  lemma SubjectNameIsFirstCommonName(cert: Cert, k: nat)
    requires k < |cert.subject.attributes|
    requires cert.subject.attributes[k].name == "commonName"
    requires forall j | 0 <= j < k :: cert.subject.attributes[j].name != "commonName"
    ensures SubjectName(cert) == cert.subject.attributes[k].value
  {
  }

  /** The same for the issuer. */
  lemma IssuerNameIsFirstCommonName(cert: Cert, k: nat)
    requires k < |cert.issuer.attributes|
    requires cert.issuer.attributes[k].name == "commonName"
    requires forall j | 0 <= j < k :: cert.issuer.attributes[j].name != "commonName"
    ensures IssuerName(cert) == cert.issuer.attributes[k].value
  {
  }

  /** How lines 163-164 and 217-218 read a certificate's names: as written,
      handing the distinguished-name object to `getCommonName`, or as
      intended, handing it the object's attributes. */
  datatype Naming = AsWritten | Intended

  function SubjectOf(cert: Cert, naming: Naming): string {
    match naming
    case AsWritten => SubjectNameAsWritten(cert)
    case Intended => SubjectName(cert)
  }

  function IssuerOf(cert: Cert, naming: Naming): string {
    match naming
    case AsWritten => IssuerNameAsWritten(cert)
    case Intended => IssuerName(cert)
  }

  // ---------------------------------------------------------------------
  // The analysis

  /** A key as node-forge parses it: its `toString()` text and the bit length
      of its modulus. */
  datatype ParsedKey = ParsedKey(description: string, bits: nat)

  /** The node-forge decoders the command calls; `None` is a thrown error. */
  datatype Decoders = Decoders(
    certificateFromPem: string -> Option<Cert>,
    privateKeyFromPem: string -> Option<ParsedKey>,
    certificateFromDer: string -> Option<Cert>)

  datatype CertSummary = CertSummary(
    subject: string, issuer: string, validFrom: int, validUntil: int,
    isValid: bool, serialNumber: string)

  /** `bits` is `None` for the 'N/A' of a key that failed to parse. */
  datatype KeySummary = KeySummary(keyType: string, bits: Option<nat>)

  /** The `analysis` object; `fileSize` is the byte count (the command shows
      it in KB). */
  datatype Analysis = Analysis(
    fileSize: nat,
    fileType: string,
    format: string,
    certificates: seq<CertSummary>,
    privateKey: Option<KeySummary>,
    hexPreview: string)

  /** The record pushed for a certificate (lines 162-169 and 216-223). */
  function Summarize(cert: Cert, now: int, naming: Naming): CertSummary {
    CertSummary(SubjectOf(cert, naming), IssuerOf(cert, naming), cert.notBefore, cert.notAfter,
                IsValidAt(cert.notBefore, cert.notAfter, now), cert.serialNumber)
  }

  /** The code as written differs from the intended reading only in the two
      names, which it reports as 'Unknown'. */
  lemma SummaryNamesAsWritten(cert: Cert, now: int)
    ensures Summarize(cert, now, AsWritten)
      == Summarize(cert, now, Intended).(subject := "Unknown", issuer := "Unknown")
  {
  }

  /** What a PRIVATE KEY block records: the parsed key, or
      'Encrypted/Unknown' with 'N/A' bits when parsing throws. */
  function KeyOf(parsed: Option<ParsedKey>): KeySummary {
    match parsed
    case Some(key) => KeySummary(if Contains(key.description, "RSA") then "RSA" else "Unknown", Some(key.bits))
    case None => KeySummary("Encrypted/Unknown", None)
  }

  predicate IsCertBlock(block: string) {
    Contains(block, "CERTIFICATE")
  }

  predicate IsKeyBlock(block: string) {
    !Contains(block, "CERTIFICATE") && Contains(block, "PRIVATE KEY")
  }

  /** The certificate one block yields: a CERTIFICATE block that parses. */
  function BlockCertificates(block: string, dec: Decoders, now: int, naming: Naming): seq<CertSummary> {
    if IsCertBlock(block) then
      match dec.certificateFromPem(block)
      case Some(cert) => [Summarize(cert, now, naming)]
      case None => []
    else []
  }

  /** The key one block yields: a PRIVATE KEY block (not also a CERTIFICATE
      block), parsed or not. */
  function BlockKey(block: string, dec: Decoders): Option<KeySummary> {
    if IsKeyBlock(block) then Some(KeyOf(dec.privateKeyFromPem(block))) else None
  }

  /** The certificates the PEM blocks yield, in block order; blocks that fail
      to parse are skipped. */
  function PemCertificates(blocks: seq<string>, dec: Decoders, now: int, naming: Naming): seq<CertSummary> {
    FlatMap(blocks, block => BlockCertificates(block, dec, now, naming))
  }

  /** The key the PEM blocks leave behind. */
  function PemKey(blocks: seq<string>, dec: Decoders): Option<KeySummary> {
    LastSome(blocks, block => BlockKey(block, dec))
  }

  /** Each key block overwrites the one before: there is a key exactly when
      some block is a key block, and it is the last key block's, recorded as
      'Encrypted/Unknown' when it does not parse. */
  lemma PemKeyIsLastKeyBlock(blocks: seq<string>, dec: Decoders)
    ensures PemKey(blocks, dec).None? <==> forall k | 0 <= k < |blocks| :: !IsKeyBlock(blocks[k])
    ensures forall k | 0 <= k < |blocks| && IsKeyBlock(blocks[k])
      && (forall j | k < j < |blocks| :: !IsKeyBlock(blocks[j])) ::
        PemKey(blocks, dec) == Some(KeyOf(dec.privateKeyFromPem(blocks[k])))
  {
    LastSomeSpec(blocks, block => BlockKey(block, dec));
  }

  /** Blocks are read in order: the certificates of two runs of blocks are
      those of the first followed by those of the second. */
  lemma PemCertificatesAppend(first: seq<string>, second: seq<string>, dec: Decoders, now: int, naming: Naming)
    ensures PemCertificates(first + second, dec, now, naming)
      == PemCertificates(first, dec, now, naming) + PemCertificates(second, dec, now, naming)
  {
    FlatMapAppend(first, second, block => BlockCertificates(block, dec, now, naming));
  }

  /** Over a run of blocks, too, the code as written lists the same
      certificates in the same order as the intended reading, with both
      names 'Unknown'. */
  lemma {:induction false} PemCertificatesAsWritten(blocks: seq<string>, dec: Decoders, now: int)
    ensures |PemCertificates(blocks, dec, now, AsWritten)| == |PemCertificates(blocks, dec, now, Intended)|
    ensures forall k | 0 <= k < |PemCertificates(blocks, dec, now, AsWritten)| ::
      PemCertificates(blocks, dec, now, AsWritten)[k]
        == PemCertificates(blocks, dec, now, Intended)[k].(subject := "Unknown", issuer := "Unknown")
    decreases |blocks|
  {
    if blocks != [] {
      var init, last := blocks[..|blocks| - 1], blocks[|blocks| - 1];
      PemCertificatesAsWritten(init, dec, now);
      var written := PemCertificates(blocks, dec, now, AsWritten);
      var intended := PemCertificates(blocks, dec, now, Intended);
      assert written == PemCertificates(init, dec, now, AsWritten) + BlockCertificates(last, dec, now, AsWritten);
      assert intended == PemCertificates(init, dec, now, Intended) + BlockCertificates(last, dec, now, Intended);
      if IsCertBlock(last) && dec.certificateFromPem(last).Some? {
        SummaryNamesAsWritten(dec.certificateFromPem(last).value, now);
      }
    }
  }

  const ZipMagic: seq<Byte> := [0x50, 0x4B]

  predicate HasPemMarker(bytes: seq<Byte>) { Contains(Latin1(bytes), "-----BEGIN") }
  predicate HasZipMarker(bytes: seq<Byte>) { Contains(bytes, ZipMagic) }
  predicate HasPlistMarker(bytes: seq<Byte>) {
    Contains(Latin1(bytes), "<?plist") || Contains(Latin1(bytes), "bplist")
  }

  /** The format the checks settle on, read from the last check backwards:
      the last check that fires decides. */
  function FormatOf(bytes: seq<Byte>): string {
    if IsLikelyDerCertificate(bytes) then "DER"
    else if HasPlistMarker(bytes) then "Property List"
    else if HasZipMarker(bytes) then "ZIP Archive"
    else if HasPemMarker(bytes) then "PEM"
    else "Binary"
  }

  /** The file type, read the same way; the PEM check sets one only when it
      found a certificate or a key. */
  function FileTypeOf(bytes: seq<Byte>, dec: Decoders, now: int, naming: Naming): string {
    if IsLikelyDerCertificate(bytes) then "Binary Certificate"
    else if HasPlistMarker(bytes) then "Configuration File"
    else if HasZipMarker(bytes) then "Archive File"
    else if HasPemMarker(bytes) then
      var blocks := ExtractPemBlocks(Latin1(bytes));
      if PemCertificates(blocks, dec, now, naming) != [] then "Certificate Bundle"
      else if PemKey(blocks, dec).Some? then "Private Key"
      else "Unknown"
    else "Unknown"
  }

  /** The names play no part in the file type. */
  lemma FileTypeIgnoresNaming(bytes: seq<Byte>, dec: Decoders, now: int)
    ensures FileTypeOf(bytes, dec, now, AsWritten) == FileTypeOf(bytes, dec, now, Intended)
  {
    PemCertificatesAsWritten(ExtractPemBlocks(Latin1(bytes)), dec, now);
  }

  /** The certificate a DER file yields, if it parses. */
  function DerCertificates(bytes: seq<Byte>, dec: Decoders, now: int, naming: Naming): seq<CertSummary> {
    if IsLikelyDerCertificate(bytes) then
      match dec.certificateFromDer(Latin1(bytes))
      case Some(cert) => [Summarize(cert, now, naming)]
      case None => []
    else []
  }

  /** The loop over the PEM blocks: certificate blocks that parse are listed
      in order, and each key block replaces the key found before it. */
  method ReadPemBlocks(blocks: seq<string>, dec: Decoders, now: int, naming: Naming)
    returns (certificates: seq<CertSummary>, privateKey: Option<KeySummary>)
    ensures certificates == PemCertificates(blocks, dec, now, naming)
    ensures privateKey == PemKey(blocks, dec)
  {
    certificates, privateKey := [], None;
    for i := 0 to |blocks|
      invariant certificates == PemCertificates(blocks[..i], dec, now, naming)
      invariant privateKey == PemKey(blocks[..i], dec)
    {
      var block := blocks[i];
      assert blocks[..i + 1][..i] == blocks[..i] && blocks[..i + 1][i] == block;
      if Contains(block, "CERTIFICATE") {
        var cert := dec.certificateFromPem(block);
        if cert.Some? {
          certificates := certificates + [Summarize(cert.value, now, naming)];
        }
      } else if Contains(block, "PRIVATE KEY") {
        var key := dec.privateKeyFromPem(block);
        privateKey := Some(KeyOf(key));
      }
    }
    assert blocks[..|blocks|] == blocks;
  }

  /** `analyzeKsign` after the file has been read. */
  method AnalyzeKsign(bytes: seq<Byte>, dec: Decoders, now: int, naming: Naming) returns (analysis: Analysis)
    ensures analysis.fileSize == |bytes| && analysis.hexPreview == HexPreview(bytes)
    ensures analysis.format == FormatOf(bytes)
    ensures analysis.fileType == FileTypeOf(bytes, dec, now, naming)
    ensures analysis.certificates ==
      (if HasPemMarker(bytes) then PemCertificates(ExtractPemBlocks(Latin1(bytes)), dec, now, naming) else [])
      + DerCertificates(bytes, dec, now, naming)
    ensures analysis.privateKey ==
      (if HasPemMarker(bytes) then PemKey(ExtractPemBlocks(Latin1(bytes)), dec) else None)
  {
    analysis := Analysis(|bytes|, "Unknown", "Binary", [], None, HexPreview(bytes));
    var content := Latin1(bytes);

    if HasPemMarker(bytes) {
      var certificates, privateKey := ReadPemBlocks(ExtractPemBlocks(content), dec, now, naming);
      var fileType :=
        if |certificates| > 0 then "Certificate Bundle"
        else if privateKey.Some? then "Private Key"
        else "Unknown";
      analysis := analysis.(format := "PEM", fileType := fileType,
                            certificates := certificates, privateKey := privateKey);
    }

    if HasZipMarker(bytes) {
      analysis := analysis.(format := "ZIP Archive", fileType := "Archive File");
    }

    if HasPlistMarker(bytes) {
      analysis := analysis.(format := "Property List", fileType := "Configuration File");
    }

    if IsLikelyDerCertificate(bytes) {
      analysis := analysis.(format := "DER", fileType := "Binary Certificate");
      var cert := dec.certificateFromDer(content);
      if cert.Some? {
        analysis := analysis.(certificates := analysis.certificates + [Summarize(cert.value, now, naming)]);
      }
    }
  }

  /** When no check fires the default record stands: 'Unknown', 'Binary', no
      certificates, no key. */
  lemma NothingFiresGivesDefault(bytes: seq<Byte>, dec: Decoders, now: int, naming: Naming)
    requires !HasPemMarker(bytes) && !HasZipMarker(bytes) && !HasPlistMarker(bytes)
    requires !IsLikelyDerCertificate(bytes)
    ensures FormatOf(bytes) == "Binary" && FileTypeOf(bytes, dec, now, naming) == "Unknown"
    ensures DerCertificates(bytes, dec, now, naming) == []
  {
  }

  /** A PEM bundle whose text contains "PK" anywhere (as base64 often does)
      is reported as a ZIP archive, though its certificates are still listed. */
  lemma PemWithPkReadsAsArchive(bytes: seq<Byte>, dec: Decoders, now: int, naming: Naming)
    requires HasPemMarker(bytes) && HasZipMarker(bytes)
    requires !HasPlistMarker(bytes) && !IsLikelyDerCertificate(bytes)
    ensures FormatOf(bytes) == "ZIP Archive" && FileTypeOf(bytes, dec, now, naming) == "Archive File"
  {
  }

  // ---------------------------------------------------------------------
  // Upload checks

  datatype UploadError = NotKsign | TooLarge

  /** The two checks before download: a `.ksign` suffix (case-sensitive),
      then `size > maxSize` rejects. */
  function CheckUpload(name: string, size: int, maxSize: int): (err: Option<UploadError>)
    ensures err == None <==> EndsWith(name, ".ksign") && size <= maxSize
    ensures err == Some(NotKsign) <==> !EndsWith(name, ".ksign")
  {
    if !EndsWith(name, ".ksign") then Some(NotKsign)
    else if size > maxSize then Some(TooLarge)
    else None
  }
}
