/**
 Normalisation of raw archive values before they are stored on a taxon node
 (`NeoImport.norm` and `NULL_PATTERN`), and the property map built from one
 core record during the batch insert.

 Java's regex `\s` and `String.trim` use different character sets: `\s` is
 the six ASCII white-space characters, `trim` removes every character up to
 U+0020. Both are modelled exactly, since `norm` uses one for the null test
 and the other for the returned value.
 */
module Norm {
  import opened Wrappers

  /** Java's regex class `\s` (no UNICODE_CHARACTER_CLASS flag): space, tab, newline, vertical tab, form feed, carriage return. */
  predicate IsRegexSpace(c: char) {
    c == ' ' || c == '\t' || c == '\n' || c == '\U{B}' || c == '\U{C}' || c == '\r'
  }

  /** `String.trim` removes leading and trailing characters up to U+0020. */
  predicate IsTrimmable(c: char) {
    c <= ' '
  }

  /** The line terminators, other than `\n` and `\r` (which `\s` already covers), before which
      Java's non-multiline `$` also matches when they end the input. */
  predicate IsFinalLineTerminator(c: char) {
    c == '\U{85}' || c == '\U{2028}' || c == '\U{2029}'
  }

  /** The three alternatives of `NULL_PATTERN`: `\N`, `NULL` and `\NULL` (case-sensitive). */
  const NullTokens: set<string> := {"\\N", "NULL", "\\NULL"}

  /** Every character of `s` at a position in `[lo, hi)` satisfies `p`. */
  predicate AllIn(s: string, lo: int, hi: int, p: char -> bool) {
    forall m :: lo <= m < hi && 0 <= m < |s| ==> p(s[m])
  }

  /** Length of the longest prefix of `s` whose characters satisfy `p`. */
  function SpanStart(s: string, p: char -> bool): (i: nat)
    ensures i <= |s|
    ensures AllIn(s, 0, i, p)
    ensures i < |s| ==> !p(s[i])
  {
    if |s| == 0 || !p(s[0]) then 0
    else
      var k := SpanStart(s[1..], p);
      assert forall m :: 1 <= m < k + 1 ==> s[m] == s[1..][m - 1];
      k + 1
  }

  /** Start of the longest suffix of `s[lo..]` whose characters satisfy `p`. */
  function SpanEnd(s: string, lo: nat, p: char -> bool): (j: nat)
    requires lo <= |s|
    ensures lo <= j <= |s|
    ensures AllIn(s, j, |s|, p)
    ensures lo < j ==> !p(s[j - 1])
    decreases |s|
  {
    if |s| == lo || !p(s[|s| - 1]) then |s|
    else
      var j := SpanEnd(s[..|s| - 1], lo, p);
      assert forall m :: j <= m < |s| - 1 ==> s[m] == s[..|s| - 1][m];
      j
  }

  /** The prefix length is the only one that is all `p` and not followed by a `p` character. */
  lemma SpanStartUnique(s: string, p: char -> bool, i: nat)
    requires i <= |s| && AllIn(s, 0, i, p) && (i < |s| ==> !p(s[i]))
    ensures SpanStart(s, p) == i
  {
  }

  lemma SpanEndUnique(s: string, lo: nat, p: char -> bool, j: nat)
    requires lo <= j <= |s| && AllIn(s, j, |s|, p) && (lo < j ==> !p(s[j - 1]))
    ensures SpanEnd(s, lo, p) == j
  {
  }

  /** `s` with the `\s` runs at both ends removed. */
  function StripSpaces(s: string): string {
    var i := SpanStart(s, IsRegexSpace);
    s[i..SpanEnd(s, i, IsRegexSpace)]
  }

  /** `s` is one null token with `\s` runs on either side. */
  ghost predicate TokenBetweenSpaces(s: string) {
    exists i, j ::
      && 0 <= i <= j <= |s|
      && AllIn(s, 0, i, IsRegexSpace)
      && s[i..j] in NullTokens
      && AllIn(s, j, |s|, IsRegexSpace)
  }

  /** What `NULL_PATTERN.matcher(s).find()` decides for `^\s*(\\N|\\?NULL)\s*$`: `^` only matches at
      the start of the input, `$` at its end or before a line terminator that ends it. */
  ghost predicate NullPatternMatches(s: string) {
    || TokenBetweenSpaces(s)
    || (|s| > 0 && IsFinalLineTerminator(s[|s| - 1]) && TokenBetweenSpaces(s[..|s| - 1]))
  }

  /** The executable null test used by `Norm`. */
  predicate NullPatternFinds(s: string) {
    || StripSpaces(s) in NullTokens
    || (|s| > 0 && IsFinalLineTerminator(s[|s| - 1]) && StripSpaces(s[..|s| - 1]) in NullTokens)
  }

  /** No null token starts or ends with white space, so stripping the spaces recovers it. */
  lemma StripSpacesToken(s: string)
    ensures StripSpaces(s) in NullTokens <==> TokenBetweenSpaces(s)
  {
    var i := SpanStart(s, IsRegexSpace);
    var j := SpanEnd(s, i, IsRegexSpace);
    if TokenBetweenSpaces(s) {
      var i', j' :| 0 <= i' <= j' <= |s| && AllIn(s, 0, i', IsRegexSpace) && s[i'..j'] in NullTokens && AllIn(s, j', |s|, IsRegexSpace);
      var t := s[i'..j'];
      assert |t| > 0 && !IsRegexSpace(t[0]) && !IsRegexSpace(t[|t| - 1]);
      assert s[i'] == t[0] && s[j' - 1] == t[|t| - 1];
      SpanStartUnique(s, IsRegexSpace, i');
      SpanEndUnique(s, i', IsRegexSpace, j');
    }
  }

  /** The executable test decides exactly the regex's `find()`. */
  lemma NullPatternFindsMatches(s: string)
    ensures NullPatternFinds(s) <==> NullPatternMatches(s)
  {
    StripSpacesToken(s);
    if |s| > 0 {
      StripSpacesToken(s[..|s| - 1]);
    }
  }

  /** `t` is what `String.trim` leaves of `s`: an infix of `s` such that only characters up to
      U+0020 were cut off, and that neither starts nor ends with one (or is empty if `s` is all such). */
  ghost predicate IsTrimOf(t: string, s: string) {
    exists i, j ::
      && 0 <= i <= j <= |s|
      && t == s[i..j]
      && AllIn(s, 0, i, IsTrimmable)
      && AllIn(s, j, |s|, IsTrimmable)
      && (i < j ==> !IsTrimmable(s[i]) && !IsTrimmable(s[j - 1]))
  }

  /** A trimmed string neither starts nor ends with a trimmable character. */
  predicate IsTrimmed(t: string) {
    |t| == 0 || (!IsTrimmable(t[0]) && !IsTrimmable(t[|t| - 1]))
  }

  /** Whatever `trim` leaves neither starts nor ends with a trimmable character. */
  lemma TrimOfIsTrimmed(t: string, s: string)
    requires IsTrimOf(t, s)
    ensures IsTrimmed(t)
  {
    var i, j :| 0 <= i <= j <= |s| && t == s[i..j] && AllIn(s, 0, i, IsTrimmable) && AllIn(s, j, |s|, IsTrimmable)
                && (i < j ==> !IsTrimmable(s[i]) && !IsTrimmable(s[j - 1]));
    if i < j {
      assert t[0] == s[i] && t[|t| - 1] == s[j - 1];
    }
  }

  /** `String.trim`. */
  function Trim(s: string): (t: string)
    ensures IsTrimOf(t, s)
    ensures IsTrimmed(t)
  {
    var i := SpanStart(s, IsTrimmable);
    var j := SpanEnd(s, i, IsTrimmable);
    assert IsTrimOf(s[i..j], s);
    TrimOfIsTrimmed(s[i..j], s);
    s[i..j]
  }

  /** `norm(x)`: null for a null or empty value or a null placeholder, otherwise the trimmed value. */
  function Norm(x: Option<string>): (r: Option<string>)
    ensures r.None? <==> x.None? || |x.value| == 0 || NullPatternMatches(x.value)
    ensures r.Some? ==> IsTrimOf(r.value, x.value) && IsTrimmed(r.value)
  {
    if x.None? || |x.value| == 0 then None
    else
      NullPatternFindsMatches(x.value);
      if NullPatternFinds(x.value) then None else Some(Trim(x.value))
  }

  /** No null token fits in a string of trimmable characters only. */
  lemma NoTokenAmongTrimmable(s: string)
    requires AllIn(s, 0, |s|, IsTrimmable)
    ensures !TokenBetweenSpaces(s)
  {
    forall i, j | 0 <= i <= j <= |s|
      ensures s[i..j] !in NullTokens
    {
      if i < j {
        assert s[i..j][0] == s[i];
      }
    }
  }

  /** A value of white space only (no null token) is kept, as the empty string. */
  lemma NormBlankIsEmpty(s: string)
    requires |s| > 0 && AllIn(s, 0, |s|, IsTrimmable)
    ensures Norm(Some(s)) == Some("")
  {
    NoTokenAmongTrimmable(s);
    NoTokenAmongTrimmable(s[..|s| - 1]);
    NullPatternFindsMatches(s);
    SpanStartUnique(s, IsTrimmable, |s|);
    SpanEndUnique(s, |s|, IsTrimmable, |s|);
  }

  /** Each null token, with any `\s` padding, normalises to null. */
  lemma NormTokenIsNull(w1: string, t: string, w2: string)
    requires AllIn(w1, 0, |w1|, IsRegexSpace) && t in NullTokens && AllIn(w2, 0, |w2|, IsRegexSpace)
    ensures Norm(Some(w1 + t + w2)) == None
  {
    var s := w1 + t + w2;
    assert s[|w1|..|w1| + |t|] == t;
    assert AllIn(s, 0, |w1|, IsRegexSpace) by {
      assert forall m :: 0 <= m < |w1| ==> s[m] == w1[m];
    }
    assert AllIn(s, |w1| + |t|, |s|, IsRegexSpace) by {
      assert forall m :: |w1| + |t| <= m < |s| ==> s[m] == w2[m - |w1| - |t|];
    }
  }

  /** The match is case-sensitive: lower-case `null` is an ordinary value. */
  lemma NormKeepsLowerCaseNull()
    ensures Norm(Some("null")) == Some("null")
  {
    var s := "null";
    NullPatternFindsMatches(s);
    SpanStartUnique(s, IsRegexSpace, 0);
    SpanEndUnique(s, 0, IsRegexSpace, 4);
    SpanStartUnique(s, IsTrimmable, 0);
    SpanEndUnique(s, 0, IsTrimmable, 4);
    assert s[0..4] == s;
  }

  /** `$` also matches before a final U+2028 line separator, which `trim` would not remove. */
  lemma NormNullBeforeLineSeparator()
    ensures Norm(Some("NULL\U{2028}")) == None
  {
    NormTokenIsNull("", "NULL", "");
    assert "NULL\U{2028}"[..4] == "" + "NULL" + "";
  }

  /** `norm` is not idempotent: a control character below U+0020 is not `\s`, so it hides a null
      token from the pattern, but `trim` removes it; normalising the result again gives null. */
  lemma NormNotIdempotent()
    ensures Norm(Some("\U{1}NULL")) == Some("NULL")
    ensures Norm(Norm(Some("\U{1}NULL"))) == None
  {
    var s := "\U{1}NULL";
    NullPatternFindsMatches(s);
    SpanStartUnique(s, IsRegexSpace, 0);
    SpanEndUnique(s, 0, IsRegexSpace, 5);
    assert StripSpaces(s) == s[0..5] == s;
    assert s !in NullTokens;
    assert !IsFinalLineTerminator(s[4]);
    assert !NullPatternFinds(s);
    SpanStartUnique(s, IsTrimmable, 1);
    SpanEndUnique(s, 1, IsTrimmable, 5);
    assert Trim(s) == s[1..5] == "NULL";
    NormTokenIsNull("", "NULL", "");
    assert "" + "NULL" + "" == "NULL";
  }

  /** The Darwin Core term holding a record's own identifier. */
  const TaxonIdTerm := "taxonID"

  /** The core row of one archive record: its row id and the value of each of the core file's terms. */
  datatype CoreRecord = CoreRecord(id: Option<string>, values: map<string, Option<string>>)

  /** The raw value `taxonID(core)` reads: the row id when the archive has no taxonID column, the
      taxonID value otherwise. */
  function IdSource(core: CoreRecord, useCoreId: bool): Option<string> {
    if useCoreId then core.id
    else if TaxonIdTerm in core.values then core.values[TaxonIdTerm] else None
  }

  /** `taxonID(core)`: the raw identifier, normalised. It is null exactly when that value is missing,
      empty or a null placeholder, and otherwise the value trimmed. */
  function TaxonIdOf(core: CoreRecord, useCoreId: bool): (r: Option<string>)
    ensures var x := IdSource(core, useCoreId);
            r.None? <==> x.None? || |x.value| == 0 || NullPatternMatches(x.value)
    ensures r.Some? ==> IsTrimOf(r.value, IdSource(core, useCoreId).value) && IsTrimmed(r.value)
  {
    Norm(IdSource(core, useCoreId))
  }

  /** The property map handed to the batch inserter for one record: every term whose normalised value
      is not null, and then the taxonID entry, which overrides any earlier one and may be null. */
  function InsertProps(core: CoreRecord, useCoreId: bool): (props: map<string, Option<string>>)
    ensures TaxonIdTerm in props && props[TaxonIdTerm] == TaxonIdOf(core, useCoreId)
    ensures forall t :: t != TaxonIdTerm ==> (t in props <==> t in core.values && Norm(core.values[t]).Some?)
    ensures forall t :: t in props && t != TaxonIdTerm ==> props[t] == Norm(core.values[t])
    ensures forall t :: t in props && props[t].Some? ==> IsTrimmed(props[t].value)
  {
    var kept := map t | t in core.values && Norm(core.values[t]).Some? :: Norm(core.values[t]);
    kept[TaxonIdTerm := TaxonIdOf(core, useCoreId)]
  }
}
