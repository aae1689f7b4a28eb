/**
  The Python string primitives the case-table parser relies on, restricted to
  ASCII: the whitespace class shared by `str.strip()` and the regex class `\s`,
  `str.strip()` itself, and `str.replace(w, "")`.
*/
module PyText {
  import opened Wrappers

  /** ASCII characters Python treats as whitespace: the space, TAB, LF, VT, FF,
      CR (9..13) and the four separators U+001C..U+001F. */
  predicate IsSpace(c: char) {
    c == ' ' || 9 <= c as int <= 13 || 28 <= c as int <= 31
  }

  /** The ASCII part of the regex class `\d`. */
  predicate IsDigit(c: char) {
    '0' <= c <= '9'
  }

  /** The regex class `[0-9A-Za-z]`. */
  predicate IsAlnum(c: char) {
    IsDigit(c) || 'a' <= c <= 'z' || 'A' <= c <= 'Z'
  }

  /** Case folding of ASCII letters, as `re.IGNORECASE` applies it. */
  function Lower(c: char): char {
    if 'A' <= c <= 'Z' then (c as int + 32) as char else c
  }

  predicate AllSpace(s: string) {
    forall k | 0 <= k < |s| :: IsSpace(s[k])
  }

  /** Neither the first nor the last character is whitespace. */
  predicate NoOuterSpace(s: string) {
    s == [] || (!IsSpace(s[0]) && !IsSpace(s[|s| - 1]))
  }

  /** Index of the first non-whitespace character of `s` at or after `i`
      (or `|s|`): the forward scan of `str.strip()`. */
  function SkipSpace(s: string, i: nat): (a: nat)
    requires i <= |s|
    ensures i <= a <= |s|
    ensures forall k | i <= k < a :: IsSpace(s[k])
    ensures a < |s| ==> !IsSpace(s[a])
    decreases |s| - i
  {
    if i < |s| && IsSpace(s[i]) then SkipSpace(s, i + 1) else i
  }

  /** End of `s[lo..j]` once its trailing whitespace is cut: the backward scan
      of `str.strip()`, which never goes below where the forward scan stopped. */
  function TrimmedEnd(s: string, lo: nat, j: nat): (e: nat)
    requires lo <= j <= |s|
    ensures lo <= e <= j
    ensures forall k | e <= k < j :: IsSpace(s[k])
    ensures lo < e ==> !IsSpace(s[e - 1])
    decreases j
  {
    if lo < j && IsSpace(s[j - 1]) then TrimmedEnd(s, lo, j - 1) else j
  }

  /** `s.strip()`: `s` without its leading and trailing whitespace; the
      result neither starts nor ends with whitespace. */
  function Strip(s: string): (r: string)
    ensures NoOuterSpace(r)
  {
    var a := SkipSpace(s, 0);
    var e := TrimmedEnd(s, a, |s|);
    assert a < e ==> s[a..e][0] == s[a] && s[a..e][e - a - 1] == s[e - 1];
    s[a..e]
  }

  /** What `strip` removes is whitespace: the result is the slice of `s` left
      once a whitespace-only prefix and a whitespace-only suffix are cut off. */
  lemma StripIsInfix(s: string)
    ensures exists i | 0 <= i <= |s| - |Strip(s)| ::
      Strip(s) == s[i..i + |Strip(s)|] && AllSpace(s[..i]) && AllSpace(s[i + |Strip(s)|..])
  {
    var a := SkipSpace(s, 0);
    var e := TrimmedEnd(s, a, |s|);
    assert AllSpace(s[..a]) by {
      forall k | 0 <= k < a ensures IsSpace(s[..a][k]) { assert s[..a][k] == s[k]; }
    }
    assert AllSpace(s[e..]) by {
      forall k | 0 <= k < |s| - e ensures IsSpace(s[e..][k]) { assert s[e..][k] == s[e + k]; }
    }
    assert Strip(s) == s[a..a + (e - a)];
  }

  /** Stripping a string with no outer whitespace changes nothing. */
  lemma StripKeepsStripped(s: string)
    requires NoOuterSpace(s)
    ensures Strip(s) == s
  {
  }

  /** `strip` is idempotent. */
  lemma {:induction false} StripIdempotent(s: string)
    ensures Strip(Strip(s)) == Strip(s)
  {
    StripKeepsStripped(Strip(s));
  }

  /** The converse characterisation: whichever way `s` splits into a
      whitespace-only prefix, a middle with no outer whitespace and a
      whitespace-only suffix, `Strip(s)` is that middle. */
  lemma {:induction false} StripUnique(s: string, i: nat, j: nat)
    requires i <= j <= |s|
    requires AllSpace(s[..i]) && AllSpace(s[j..]) && NoOuterSpace(s[i..j])
    ensures Strip(s) == s[i..j]
  {
    var a := SkipSpace(s, 0);
    var e := TrimmedEnd(s, a, |s|);
    assert forall k | 0 <= k < i :: IsSpace(s[k]) by {
      forall k | 0 <= k < i ensures IsSpace(s[k]) { assert s[..i][k] == s[k]; }
    }
    assert forall k | j <= k < |s| :: IsSpace(s[k]) by {
      forall k | j <= k < |s| ensures IsSpace(s[k]) { assert s[j..][k - j] == s[k]; }
    }
    if i < j {
      assert !IsSpace(s[i]) && !IsSpace(s[j - 1]) by {
        assert s[i..j][0] == s[i] && s[i..j][j - i - 1] == s[j - 1];
      }
      assert a == i;
      assert e == j;
    } else {
      assert a == |s|;
    }
  }

  /** `w` occurs in `s` starting at position `p`. */
  predicate OccursAt(s: string, w: string, p: nat)
    ensures OccursAt(s, w, p) ==> p + |w| <= |s|
    decreases w
  {
    if w == [] then p <= |s|
    else p < |s| && s[p] == w[0] && OccursAt(s, w[1..], p + 1)
  }

  /** `s[i..].replace(w, "")` for a non-empty `w`, as one left-to-right pass:
      an occurrence of `w` at the scan position is dropped and the scan resumes
      after it; otherwise one character is kept. */
  function RemoveFrom(s: string, w: string, i: nat): (r: string)
    requires w != [] && i <= |s|
    ensures |r| <= |s| - i
    decreases |s| - i
  {
    if i == |s| then []
    else if OccursAt(s, w, i) then RemoveFrom(s, w, i + |w|)
    else [s[i]] + RemoveFrom(s, w, i + 1)
  }

  /** Text with no occurrence of `w` comes back unchanged. */
  lemma {:induction false} RemoveFromNoOccurrence(s: string, w: string, i: nat)
    requires w != [] && i <= |s|
    requires forall p | i <= p < |s| :: !OccursAt(s, w, p)
    ensures RemoveFrom(s, w, i) == s[i..]
    decreases |s| - i
  {
    if i < |s| {
      RemoveFromNoOccurrence(s, w, i + 1);
      assert s[i..] == [s[i]] + s[i + 1..];
    }
  }

  /** `s.replace(w, "")`. */
  function RemoveAll(s: string, w: string): (r: string)
    requires w != []
    ensures |r| <= |s|
  {
    RemoveFrom(s, w, 0)
  }

  /** The leftmost occurrence of `w` in `s` at or after `i`. */
  function FindFrom(s: string, w: string, i: nat): (r: Option<nat>)
    requires i <= |s|
    ensures r.Some? ==> i <= r.value < |s| && OccursAt(s, w, r.value)
    ensures r.Some? ==> forall q | i <= q < r.value :: !OccursAt(s, w, q)
    ensures r.None? ==> forall q | i <= q < |s| :: !OccursAt(s, w, q)
    decreases |s| - i
  {
    if i == |s| then None
    else if OccursAt(s, w, i) then Some(i)
    else FindFrom(s, w, i + 1)
  }

  /** A second definition of the same replacement, in the shape of CPython's
      implementation: find the leftmost occurrence, keep the text before it,
      skip the occurrence and carry on after it. */
  function RemoveEach(s: string, w: string, i: nat): string
    requires w != [] && i <= |s|
    decreases |s| - i
  {
    match FindFrom(s, w, i)
    case None => s[i..]
    case Some(p) => s[i..p] + RemoveEach(s, w, p + |w|)
  }

  lemma FindFromStep(s: string, w: string, i: nat)
    requires i < |s| && !OccursAt(s, w, i)
    ensures FindFrom(s, w, i) == FindFrom(s, w, i + 1)
  {
  }

  /** Where `s[i..]` does not start with `w`, `RemoveEach` keeps `s[i]` and
      carries on from `i + 1`. */
  lemma RemoveEachStep(s: string, w: string, i: nat)
    requires w != [] && i < |s| && !OccursAt(s, w, i)
    ensures RemoveEach(s, w, i) == [s[i]] + RemoveEach(s, w, i + 1)
  {
    FindFromStep(s, w, i);
    match FindFrom(s, w, i + 1)
    case None =>
      SliceCons(s, i, |s|);
    case Some(p) =>
      SliceCons(s, i, p);
      assert RemoveEach(s, w, i + 1) == s[i + 1..p] + RemoveEach(s, w, p + |w|);
  }

  lemma SliceCons(s: string, i: nat, j: nat)
    requires i < j <= |s|
    ensures s[i..j] == [s[i]] + s[i + 1..j]
  {
  }

  /** Where `s[i..]` starts with `w`, `RemoveEach` drops it and carries on
      after it. */
  lemma RemoveEachHit(s: string, w: string, i: nat)
    requires w != [] && i < |s| && OccursAt(s, w, i)
    ensures RemoveEach(s, w, i) == RemoveEach(s, w, i + |w|)
  {
    assert FindFrom(s, w, i) == Some(i);
    assert s[i..i] == [];
  }

  lemma {:induction false} RemoveFromIsRemoveEach(s: string, w: string, i: nat)
    requires w != [] && i <= |s|
    ensures RemoveFrom(s, w, i) == RemoveEach(s, w, i)
    decreases |s| - i
  {
    if i == |s| {
    } else if OccursAt(s, w, i) {
      RemoveFromIsRemoveEach(s, w, i + |w|);
      RemoveEachHit(s, w, i);
    } else {
      RemoveFromIsRemoveEach(s, w, i + 1);
      RemoveEachStep(s, w, i);
      assert RemoveFrom(s, w, i) == [s[i]] + RemoveFrom(s, w, i + 1);
    }
  }

  /** Hence `RemoveAll` is the find-and-skip replacement of the whole string. */
  lemma RemoveAllIsRemoveEach(s: string, w: string)
    requires w != []
    ensures RemoveAll(s, w) == RemoveEach(s, w, 0)
  {
    RemoveFromIsRemoveEach(s, w, 0);
  }

  /** The pass is single: removing an occurrence can bring two halves of
      another together, and that one stays. */
  lemma RemoveAllIsSinglePass()
    ensures RemoveAll("OrOrdersders", "Orders") == "Orders"
  {
    var s, w := "OrOrdersders", "Orders";
    assert !OccursAt(s, w, 0) by { assert s[0 + 2] != w[2]; }
    assert !OccursAt(s, w, 1) by { assert s[1 + 0] != w[0]; }
    assert OccursAt(s, w, 2);
    assert !OccursAt(s, w, 8);
    assert RemoveFrom(s, w, 8) == "ders";
    assert RemoveFrom(s, w, 2) == "ders";
  }
}
