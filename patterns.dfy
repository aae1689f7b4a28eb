/**
  The three searches the parser runs over the fourth cell of a row, each a
  fixed regular expression searched with `re.IGNORECASE`:

    NEXT DATE:\s*([\d/]+)       Last Date:\s*([\d/]+)       COURT NO:?\s*([0-9A-Za-z]+)

  Each is written out as a scanner. At a start position `p` the pattern
  matches exactly when the label is there (up to case), then, after an
  optional colon where the pattern has `:?` and the longest run of whitespace,
  a character of the value class follows. Backtracking adds no further
  matches: giving back whitespace or the colon leaves a whitespace character
  or a colon where a value character is needed, and neither is one. The value
  class is repeated greedily with nothing after it, so the captured group is
  the longest run of value characters from there.
*/
module CasePatterns {
  import opened Wrappers
  import opened PyText

  datatype ValueClass = DateChars | Alphanumeric

  /** A label (kept in lower case), whether a colon may follow it, and the
      class of the captured value. */
  datatype Pattern = Pattern(marker: string, optionalColon: bool, value: ValueClass)

  /** `NEXT DATE:\s*([\d/]+)` */
  const NextDate := Pattern("next date:", false, DateChars)
  /** `Last Date:\s*([\d/]+)` */
  const LastDate := Pattern("last date:", false, DateChars)
  /** `COURT NO:?\s*([0-9A-Za-z]+)` */
  const CourtNo := Pattern("court no", true, Alphanumeric)

  /** `[\d/]` or `[0-9A-Za-z]`. */
  predicate InClass(c: char, v: ValueClass) {
    match v
    case DateChars => IsDigit(c) || c == '/'
    case Alphanumeric => IsAlnum(c)
  }

  /** The lower-case label `marker` occurs at `p` in `text`, letters compared without
      regard to case. */
  predicate LabelAt(text: string, p: nat, marker: string) {
    && p + |marker| <= |text|
    && forall k | 0 <= k < |marker| :: Lower(text[p + k]) == marker[k]
  }

  /** End of the longest run of value characters starting at `i`. */
  function RunEnd(text: string, i: nat, v: ValueClass): (j: nat)
    requires i <= |text|
    ensures i <= j <= |text|
    ensures forall k | i <= k < j :: InClass(text[k], v)
    ensures j < |text| ==> !InClass(text[j], v)
    decreases |text| - i
  {
    if i < |text| && InClass(text[i], v) then RunEnd(text, i + 1, v) else i
  }

  /** Just past the label at `p`, and past the colon when the pattern allows
      one and it is there. */
  function AfterLabel(text: string, p: nat, pat: Pattern): (q: nat)
    requires LabelAt(text, p, pat.marker)
    ensures p + |pat.marker| <= q <= |text|
  {
    var q := p + |pat.marker|;
    if pat.optionalColon && q < |text| && text[q] == ':' then q + 1 else q
  }

  /** Where the value would start after the label at `p`: past the optional
      colon, then past `\s*`. */
  function ValueStart(text: string, p: nat, pat: Pattern): (v: nat)
    requires LabelAt(text, p, pat.marker)
    ensures p + |pat.marker| <= v <= |text|
  {
    SkipSpace(text, AfterLabel(text, p, pat))
  }

  /** The pattern matches with its match starting at `p`. */
  predicate MatchesAt(text: string, p: nat, pat: Pattern) {
    && LabelAt(text, p, pat.marker)
    && ValueStart(text, p, pat) < |text|
    && InClass(text[ValueStart(text, p, pat)], pat.value)
  }

  /** Group 1 of a match starting at `p`. */
  function Capture(text: string, p: nat, pat: Pattern): string
    requires MatchesAt(text, p, pat)
  {
    var v := ValueStart(text, p, pat);
    text[v..RunEnd(text, v, pat.value)]
  }

  /** Whether the pattern matches at each start position `0..|text|`. */
  function MatchTable(text: string, pat: Pattern): (m: seq<bool>)
    ensures |m| == |text| + 1
  {
    seq(|text| + 1, q => 0 <= q && MatchesAt(text, q, pat))
  }

  /** The first `true` at or after `i`. */
  function FirstTrue(m: seq<bool>, i: nat): (r: Option<nat>)
    requires i <= |m|
    ensures r.Some? ==> i <= r.value < |m| && m[r.value]
    decreases |m| - i
  {
    if i == |m| then None
    else if m[i] then Some(i)
    else FirstTrue(m, i + 1)
  }

  /** No `true` is skipped, and none is left when nothing is found. */
  lemma {:induction false} FirstTrueLeftmost(m: seq<bool>, i: nat)
    requires i <= |m|
    ensures FirstTrue(m, i).Some? ==> forall q | i <= q < FirstTrue(m, i).value :: !m[q]
    ensures FirstTrue(m, i).None? ==> forall q | i <= q < |m| :: !m[q]
    decreases |m| - i
  {
    if i < |m| && !m[i] {
      FirstTrueLeftmost(m, i + 1);
    }
  }

  /** The search of `re.search`: the first start position, up to and
      including `|text|`, at which the pattern matches. */
  function FirstMatch(text: string, pat: Pattern): (r: Option<nat>)
    ensures r.Some? ==> r.value <= |text| && MatchesAt(text, r.value, pat)
  {
    FirstTrue(MatchTable(text, pat), 0)
  }

  /** The search finds the leftmost match, and finds nothing only when there
      is no match at all. */
  lemma FirstMatchLeftmost(text: string, pat: Pattern)
    ensures FirstMatch(text, pat).Some? ==>
              forall q | 0 <= q < FirstMatch(text, pat).value :: !MatchesAt(text, q, pat)
    ensures FirstMatch(text, pat).None? ==> forall q | 0 <= q <= |text| :: !MatchesAt(text, q, pat)
  {
    var m := MatchTable(text, pat);
    FirstTrueLeftmost(m, 0);
    forall q | 0 <= q <= |text| ensures m[q] == MatchesAt(text, q, pat) {
    }
  }

  /** `m.group(1) if m else ""` for `m = re.search(pattern, text, re.IGNORECASE)`. */
  function Extract(text: string, pat: Pattern): (r: string)
    ensures |r| <= |text|
  {
    match FirstMatch(text, pat)
    case None => ""
    case Some(p) => Capture(text, p, pat)
  }

  /** Each field is either empty or a non-empty string of value characters,
      and it is empty exactly when the pattern matches nowhere in the text. */
  lemma ExtractSpec(text: string, pat: Pattern)
    ensures forall k | 0 <= k < |Extract(text, pat)| :: InClass(Extract(text, pat)[k], pat.value)
    ensures Extract(text, pat) == [] <==> forall p | 0 <= p <= |text| :: !MatchesAt(text, p, pat)
  {
    FirstMatchLeftmost(text, pat);
    match FirstMatch(text, pat)
    case None =>
    case Some(p) =>
      var v := ValueStart(text, p, pat);
      assert v < RunEnd(text, v, pat.value);
  }

  /** `p` is the leftmost start position at which the pattern matches. */
  predicate IsLeftmostMatch(text: string, p: nat, pat: Pattern) {
    p <= |text| && MatchesAt(text, p, pat) && forall q | 0 <= q < p :: !MatchesAt(text, q, pat)
  }

  /** The extracted value is the run of value characters right after the
      leftmost match's label, colon and whitespace, and it cannot be extended:
      it reaches the end of the text or the next character is not a value
      character. */
  lemma ExtractLeftmostGreedy(text: string, pat: Pattern, p: nat)
    requires IsLeftmostMatch(text, p, pat)
    ensures var r := Extract(text, pat);
            var v := ValueStart(text, p, pat);
            && v + |r| <= |text| && r == text[v..v + |r|]
            && (v + |r| == |text| || !InClass(text[v + |r|], pat.value))
  {
    FirstMatchLeftmost(text, pat);
    var f := FirstMatch(text, pat);
    assert f.Some? && f.value <= p;
    assert f.value >= p;
  }

  /** `t1` and `t2` differ at most in the case of ASCII letters. */
  predicate SameUpToCase(t1: string, t2: string) {
    |t1| == |t2| && forall k | 0 <= k < |t1| :: Lower(t1[k]) == Lower(t2[k])
  }

  /** Characters that are equal up to case agree on every class the
      patterns test, and a date character has no other case. */
  lemma SameLowerSameClass(c1: char, c2: char, v: ValueClass)
    requires Lower(c1) == Lower(c2)
    ensures IsSpace(c1) == IsSpace(c2) && (c1 == ':') == (c2 == ':')
    ensures InClass(c1, v) == InClass(c2, v)
    ensures v == DateChars && InClass(c1, v) ==> c1 == c2
  {
  }

  lemma LabelAtUpToCase(t1: string, t2: string, p: nat, marker: string)
    requires SameUpToCase(t1, t2)
    ensures LabelAt(t1, p, marker) == LabelAt(t2, p, marker)
  {
    if p + |marker| <= |t1| {
      forall k | 0 <= k < |marker|
        ensures (Lower(t1[p + k]) == marker[k]) == (Lower(t2[p + k]) == marker[k])
      {
      }
    }
  }

  lemma {:induction false} SkipSpaceUpToCase(t1: string, t2: string, i: nat)
    requires SameUpToCase(t1, t2) && i <= |t1|
    ensures SkipSpace(t1, i) == SkipSpace(t2, i)
    decreases |t1| - i
  {
    if i < |t1| {
      SameLowerSameClass(t1[i], t2[i], DateChars);
      SkipSpaceUpToCase(t1, t2, i + 1);
    }
  }

  lemma {:induction false} RunEndUpToCase(t1: string, t2: string, i: nat, v: ValueClass)
    requires SameUpToCase(t1, t2) && i <= |t1|
    ensures RunEnd(t1, i, v) == RunEnd(t2, i, v)
    decreases |t1| - i
  {
    if i < |t1| {
      SameLowerSameClass(t1[i], t2[i], v);
      RunEndUpToCase(t1, t2, i + 1, v);
    }
  }

  lemma AfterLabelUpToCase(t1: string, t2: string, p: nat, pat: Pattern)
    requires SameUpToCase(t1, t2) && LabelAt(t1, p, pat.marker) && LabelAt(t2, p, pat.marker)
    ensures AfterLabel(t1, p, pat) == AfterLabel(t2, p, pat)
  {
    var q := p + |pat.marker|;
    if q < |t1| {
      SameLowerSameClass(t1[q], t2[q], pat.value);
    }
  }

  lemma ValueStartUpToCase(t1: string, t2: string, p: nat, pat: Pattern)
    requires SameUpToCase(t1, t2) && LabelAt(t1, p, pat.marker) && LabelAt(t2, p, pat.marker)
    ensures ValueStart(t1, p, pat) == ValueStart(t2, p, pat)
  {
    AfterLabelUpToCase(t1, t2, p, pat);
    SkipSpaceUpToCase(t1, t2, AfterLabel(t1, p, pat));
  }

  lemma MatchesAtUpToCase(t1: string, t2: string, p: nat, pat: Pattern)
    requires SameUpToCase(t1, t2)
    ensures MatchesAt(t1, p, pat) == MatchesAt(t2, p, pat)
    ensures MatchesAt(t1, p, pat) ==> ValueStart(t1, p, pat) == ValueStart(t2, p, pat)
  {
    LabelAtUpToCase(t1, t2, p, pat.marker);
    if LabelAt(t1, p, pat.marker) {
      ValueStartUpToCase(t1, t2, p, pat);
      var v := ValueStart(t1, p, pat);
      if v < |t1| {
        SameLowerSameClass(t1[v], t2[v], pat.value);
      }
    }
  }

  lemma FirstMatchUpToCase(t1: string, t2: string, pat: Pattern)
    requires SameUpToCase(t1, t2)
    ensures FirstMatch(t1, pat) == FirstMatch(t2, pat)
  {
    var m1, m2 := MatchTable(t1, pat), MatchTable(t2, pat);
    forall q | 0 <= q <= |t1| ensures m1[q] == m2[q] {
      MatchesAtUpToCase(t1, t2, q, pat);
    }
    assert m1 == m2;
  }

  /** The labels are matched without regard to case: texts that differ only
      in the case of letters yield the same value up to case, and the very same
      date. */
  lemma ExtractIgnoresCase(t1: string, t2: string, pat: Pattern)
    requires SameUpToCase(t1, t2)
    ensures SameUpToCase(Extract(t1, pat), Extract(t2, pat))
    ensures pat.value == DateChars ==> Extract(t1, pat) == Extract(t2, pat)
  {
    FirstMatchUpToCase(t1, t2, pat);
    match FirstMatch(t1, pat)
    case None =>
    case Some(p) =>
      MatchesAtUpToCase(t1, t2, p, pat);
      var v := ValueStart(t1, p, pat);
      RunEndUpToCase(t1, t2, v, pat.value);
      var e := RunEnd(t1, v, pat.value);
      forall k | v <= k < e
        ensures t1[k] == t2[k] || pat.value == Alphanumeric
      {
        SameLowerSameClass(t1[k], t2[k], pat.value);
      }
  }

  /** `x` sits in `full` at offset `o`. */
  predicate InWindow(full: string, o: nat, x: string) {
    o + |x| <= |full| && full[o..o + |x|] == x
  }

  lemma LabelInWindow(full: string, o: nat, x: string, q: nat, marker: string)
    requires InWindow(full, o, x) && LabelAt(x, q, marker)
    ensures LabelAt(full, o + q, marker)
  {
    forall k | 0 <= k < |marker| ensures Lower(full[o + q + k]) == marker[k] {
      assert full[o + q + k] == full[o..o + |x|][q + k];
    }
  }

  lemma {:induction false} SkipSpaceInWindow(full: string, o: nat, x: string, i: nat)
    requires InWindow(full, o, x) && i <= |x| && SkipSpace(x, i) < |x|
    ensures SkipSpace(full, o + i) == o + SkipSpace(x, i)
    decreases |x| - i
  {
    assert full[o + i] == full[o..o + |x|][i];
    if IsSpace(x[i]) {
      SkipSpaceInWindow(full, o, x, i + 1);
    }
  }

  lemma {:induction false} RunEndInWindow(full: string, o: nat, x: string, i: nat, v: ValueClass)
    requires InWindow(full, o, x) && i <= |x| && RunEnd(x, i, v) < |x|
    ensures RunEnd(full, o + i, v) == o + RunEnd(x, i, v)
    decreases |x| - i
  {
    assert full[o + i] == full[o..o + |x|][i];
    if InClass(x[i], v) {
      RunEndInWindow(full, o, x, i + 1, v);
    }
  }

  lemma AfterLabelInWindow(full: string, o: nat, x: string, pat: Pattern)
    requires InWindow(full, o, x) && LabelAt(x, 0, pat.marker) && |pat.marker| < |x|
    requires LabelAt(full, o, pat.marker)
    ensures AfterLabel(full, o, pat) == o + AfterLabel(x, 0, pat)
  {
    var q := |pat.marker|;
    assert full[o + q] == full[o..o + |x|][q];
  }

  lemma ValueStartInWindow(full: string, o: nat, x: string, pat: Pattern)
    requires InWindow(full, o, x) && MatchesAt(x, 0, pat)
    ensures LabelAt(full, o, pat.marker)
    ensures ValueStart(full, o, pat) == o + ValueStart(x, 0, pat)
    ensures MatchesAt(full, o, pat)
  {
    LabelInWindow(full, o, x, 0, pat.marker);
    AfterLabelInWindow(full, o, x, pat);
    SkipSpaceInWindow(full, o, x, AfterLabel(x, 0, pat));
    var v := ValueStart(x, 0, pat);
    assert full[o + v] == full[o..o + |x|][v];
  }

  /** A match at the start of `x` whose value is ended by a character inside
      `x` is a match with the same value wherever `x` is embedded. */
  lemma MatchInWindow(full: string, o: nat, x: string, pat: Pattern)
    requires InWindow(full, o, x) && MatchesAt(x, 0, pat)
    requires RunEnd(x, ValueStart(x, 0, pat), pat.value) < |x|
    ensures MatchesAt(full, o, pat)
    ensures Capture(full, o, pat) == Capture(x, 0, pat)
  {
    ValueStartInWindow(full, o, x, pat);
    var v := ValueStart(x, 0, pat);
    CaptureInWindow(full, o, x, v, pat.value);
    assert Capture(full, o, pat) == full[o + v..RunEnd(full, o + v, pat.value)];
  }

  lemma CaptureInWindow(full: string, o: nat, x: string, v: nat, c: ValueClass)
    requires InWindow(full, o, x) && v <= |x| && RunEnd(x, v, c) < |x|
    ensures o + RunEnd(x, v, c) <= |full|
    ensures full[o + v..RunEnd(full, o + v, c)] == x[v..RunEnd(x, v, c)]
  {
    RunEndInWindow(full, o, x, v, c);
    var e := RunEnd(x, v, c);
    forall k | 0 <= k < e - v ensures full[o + v..o + e][k] == x[v..e][k] {
      assert full[o + v + k] == full[o..o + |x|][v + k];
    }
  }

  /** The fields are read independently of what surrounds them: a token that
      starts with the label and whose value is ended inside the token yields
      the same value wherever it is placed, provided no occurrence of the same
      label starts before it. Text around it, other labels included, does not
      change it. */
  lemma TokenInContext(pre: string, tok: string, post: string, pat: Pattern)
    requires forall q | 0 <= q < |pre| :: !LabelAt(pre + tok + post, q, pat.marker)
    requires MatchesAt(tok, 0, pat)
    requires RunEnd(tok, ValueStart(tok, 0, pat), pat.value) < |tok|
    ensures Extract(pre + tok + post, pat) == Extract(tok, pat)
  {
    var full := pre + tok + post;
    assert InWindow(full, |pre|, tok) by {
      assert full[|pre|..|pre| + |tok|] == tok;
    }
    MatchInWindow(full, |pre|, tok, pat);
    assert FirstMatch(tok, pat) == Some(0);
    FirstMatchLeftmost(full, pat);
    var f := FirstMatch(full, pat);
    assert f.Some? && f.value <= |pre|;
    assert f.value == |pre|;
  }

  /** A match at the very start of the text, with the value running from
      `v` to `e`, gives that value. */
  lemma ExtractAtStart(text: string, pat: Pattern, v: nat, e: nat)
    requires LabelAt(text, 0, pat.marker) && ValueStart(text, 0, pat) == v
    requires v < e == RunEnd(text, v, pat.value)
    ensures Extract(text, pat) == text[v..e]
  {
  }

  /** The whitespace run from `i` ends at `j`. */
  lemma SkipSpaceTo(text: string, i: nat, j: nat)
    requires i <= j <= |text| && AllSpace(text[i..j])
    requires j < |text| ==> !IsSpace(text[j])
    ensures SkipSpace(text, i) == j
  {
  }

  /** The run of value characters from `i` ends at `j`. */
  lemma RunEndTo(text: string, i: nat, j: nat, v: ValueClass)
    requires i <= j <= |text|
    requires forall k | i <= k < j :: InClass(text[k], v)
    requires j < |text| ==> !InClass(text[j], v)
    ensures RunEnd(text, i, v) == j
  {
  }

  /** What a label and its separator look like: the label in any case, then
      whitespace, or, where the pattern allows one, a colon and whitespace. */
  predicate LabelHead(head: string, pat: Pattern) {
    var m := |pat.marker|;
    && m <= |head|
    && LabelAt(head, 0, pat.marker)
    && var c := if pat.optionalColon && m < |head| && head[m] == ':' then m + 1 else m;
       AllSpace(head[c..])
  }

  /** A field written the way the court's table writes it: a label head, then
      the value, ended by the end of the text or by a character outside the
      value class. The value read is exactly that value. */
  lemma ExtractAfterLabel(head: string, val: string, rest: string, pat: Pattern)
    requires LabelHead(head, pat)
    requires val != [] && forall k | 0 <= k < |val| :: InClass(val[k], pat.value)
    requires rest == [] || !InClass(rest[0], pat.value)
    ensures MatchesAt(head + val + rest, 0, pat)
    ensures ValueStart(head + val + rest, 0, pat) == |head|
    ensures RunEnd(head + val + rest, |head|, pat.value) == |head| + |val|
    ensures Extract(head + val + rest, pat) == val
  {
    var text := head + val + rest;
    var m := |pat.marker|;
    var v := |head|;
    var e := v + |val|;
    assert text[0..v] == head && text[v..e] == val;
    LabelInWindow(text, 0, head, 0, pat.marker);
    assert text[v] == val[0];
    var q' := if pat.optionalColon && m < |text| && text[m] == ':' then m + 1 else m;
    if m < v {
      assert text[m] == head[m];
    }
    assert text[q'..v] == head[q'..];
    SkipSpaceTo(text, q', v);
    RunEndTo(text, v, e, pat.value);
    if e < |text| {
      assert text[e] == rest[0];
    }
    ExtractAtStart(text, pat, v, e);
  }

  /** The two together: a field written as a label head and a value, ended
      by the end of the cell or by a character outside the value class, is
      read as that value wherever it stands in the cell, provided the same
      label does not start earlier. */
  lemma FieldInContext(pre: string, head: string, val: string, rest: string, pat: Pattern)
    requires forall q | 0 <= q < |pre| :: !LabelAt(pre + head + val + rest, q, pat.marker)
    requires LabelHead(head, pat)
    requires val != [] && forall k | 0 <= k < |val| :: InClass(val[k], pat.value)
    requires rest == [] || !InClass(rest[0], pat.value)
    ensures Extract(pre + head + val + rest, pat) == val
  {
    if rest == [] {
      assert pre + head + val + rest == pre + head + val;
      FieldAtEnd(pre, head, val, pat);
    } else {
      var tok, post := head + val + [rest[0]], rest[1..];
      ExtractAfterLabel(head, val, [rest[0]], pat);
      assert pre + tok + post == pre + head + val + rest by {
        assert [rest[0]] + rest[1..] == rest;
      }
      TokenInContext(pre, tok, post, pat);
    }
  }

  /** A field that ends the cell, after other text. */
  lemma FieldAtEnd(pre: string, head: string, val: string, pat: Pattern)
    requires forall q | 0 <= q < |pre| :: !LabelAt(pre + head + val, q, pat.marker)
    requires LabelHead(head, pat)
    requires val != [] && forall k | 0 <= k < |val| :: InClass(val[k], pat.value)
    ensures Extract(pre + head + val, pat) == val
  {
    var full := pre + head + val;
    FieldMatchAtEnd(pre, head, val, pat);
    FirstMatchLeftmost(full, pat);
    var f := FirstMatch(full, pat);
    assert f.Some? && f.value <= |pre|;
    assert f.value == |pre|;
  }

  /** Helper: the match at the field's label, with its capture. */
  lemma FieldMatchAtEnd(pre: string, head: string, val: string, pat: Pattern)
    requires LabelHead(head, pat)
    requires val != [] && forall k | 0 <= k < |val| :: InClass(val[k], pat.value)
    ensures MatchesAt(pre + head + val, |pre|, pat)
    ensures Capture(pre + head + val, |pre|, pat) == val
  {
    var full, tok := pre + head + val, head + val;
    var v := |pre| + |head|;
    FieldStartAtEnd(pre, head, val, pat);
    forall k | v <= k < |full| ensures InClass(full[k], pat.value) {
      assert full[k] == val[k - v];
    }
    RunEndTo(full, v, |full|, pat.value);
    assert full[v..|full|] == val;
  }

  /** Helper: the match at the field's label, with the start of its value. */
  lemma FieldStartAtEnd(pre: string, head: string, val: string, pat: Pattern)
    requires LabelHead(head, pat)
    requires val != [] && forall k | 0 <= k < |val| :: InClass(val[k], pat.value)
    ensures MatchesAt(pre + head + val, |pre|, pat)
    ensures ValueStart(pre + head + val, |pre|, pat) == |pre| + |head|
  {
    var full, tok := pre + head + val, head + val;
    ExtractAfterLabel(head, val, [], pat);
    assert tok + [] == tok;
    assert InWindow(full, |pre|, tok) by {
      assert full[|pre|..|pre| + |tok|] == tok;
    }
    ValueStartInWindow(full, |pre|, tok, pat);
  }

  /** The same, for a value that ends the text. */
  lemma ExtractAfterLabelAtEnd(head: string, val: string, pat: Pattern)
    requires LabelHead(head, pat)
    requires val != [] && forall k | 0 <= k < |val| :: InClass(val[k], pat.value)
    ensures Extract(head + val, pat) == val
  {
    ExtractAfterLabel(head, val, [], pat);
    assert head + val + [] == head + val;
  }

  /** A date after `NEXT DATE:` is read up to the end of its digits and
      slashes. */
  lemma NextDateExample()
    ensures Extract("NEXT DATE: " + "12/01/2025", NextDate) == "12/01/2025"
  {
    ExtractAfterLabelAtEnd("NEXT DATE: ", "12/01/2025", NextDate);
  }

  /** The colon after `COURT NO` may be left out. */
  lemma CourtNoColonOptional()
    ensures Extract("COURT NO " + "5", CourtNo) == "5"
    ensures Extract("court no: " + "5", CourtNo) == "5"
  {
    ExtractAfterLabelAtEnd("COURT NO ", "5", CourtNo);
    ExtractAfterLabelAtEnd("court no: ", "5", CourtNo);
  }

  /** A label followed at once by letters still matches: `COURT NOTICE` reads
      as court number `TICE`. */
  lemma CourtNoticeReadsAsCourtNo()
    ensures Extract("COURT NO" + "TICE", CourtNo) == "TICE"
  {
    ExtractAfterLabelAtEnd("COURT NO", "TICE", CourtNo);
  }
}
