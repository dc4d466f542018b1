/** The word-boundary symbol matcher: does a text mention a gene symbol or
    one of its aliases as a whole word, ignoring case? */
module Matcher {
  import opened Chars

  /** `sym` occurs at offset `p` of `text`, ignoring ASCII case. */
  predicate LiteralAt(text: string, sym: string, p: int) {
    && 0 <= p
    && p + |sym| <= |text|
    && forall k :: 0 <= k < |sym| ==> Lower(text[p + k]) == Lower(sym[k])
  }

  /** Nothing of `[A-Za-z0-9_]` right before offset `p`. */
  predicate LeftBoundary(text: string, p: int) {
    p == 0 || (0 < p <= |text| && !IsWordChar(text[p - 1]))
  }

  /** Nothing of `[A-Za-z0-9_]` right at offset `e`. */
  predicate RightBoundary(text: string, e: int) {
    e == |text| || (0 <= e < |text| && !IsWordChar(text[e]))
  }

  /** A whole-word occurrence of `sym` at offset `p`. */
  predicate MentionAt(text: string, sym: string, p: int) {
    LiteralAt(text, sym, p) && LeftBoundary(text, p) && RightBoundary(text, p + |sym|)
  }

  /** `text` mentions `sym` as a whole word somewhere. */
  ghost predicate Mentions(text: string, sym: string) {
    exists p :: 0 <= p <= |text| && MentionAt(text, sym, p)
  }

  // ---------------------------------------------------------------------
  // The regular expression, alternative by alternative
  // ---------------------------------------------------------------------

  /** The literal at `q` followed by the second group `([^A-Za-z0-9_]|$)`;
      Python's `$` matches at the end or just before a final line feed. */
  predicate LiteralThenEnd(text: string, sym: string, q: int) {
    && LiteralAt(text, sym, q)
    && var e := q + |sym|;
       || (e < |text| && !IsWordChar(text[e]))
       || e == |text|
       || (e == |text| - 1 && text[e] == '\n')
  }

  /** `(^|[^A-Za-z0-9_])<sym>([^A-Za-z0-9_]|$)` matches starting at `s`: the
      first group is either the anchor (only at 0) or one non-word character. */
  predicate RegexMatchAt(text: string, sym: string, s: int) {
    || (s == 0 && LiteralThenEnd(text, sym, 0))
    || (0 <= s < |text| && !IsWordChar(text[s]) && LiteralThenEnd(text, sym, s + 1))
  }

  /** `word_boundary_regex(sym).search(text)` finds a match. */
  ghost predicate RegexSearch(text: string, sym: string) {
    exists s :: 0 <= s <= |text| && RegexMatchAt(text, sym, s)
  }

  /** The regular expression finds a match exactly when the symbol occurs
      as a whole word. */
  lemma RegexSearchIsMention(text: string, sym: string)
    ensures RegexSearch(text, sym) <==> Mentions(text, sym)
  {
    if RegexSearch(text, sym) {
      var s :| 0 <= s <= |text| && RegexMatchAt(text, sym, s);
      var p := if s == 0 && LiteralThenEnd(text, sym, 0) then 0 else s + 1;
      assert MentionAt(text, sym, p);
    }
    if Mentions(text, sym) {
      var p :| 0 <= p <= |text| && MentionAt(text, sym, p);
      var s := if p == 0 then 0 else p - 1;
      assert RegexMatchAt(text, sym, s);
    }
  }

  // ---------------------------------------------------------------------
  // The search
  // ---------------------------------------------------------------------

  /** Scans every offset for a whole-word occurrence of `sym`. */
  method FindMention(text: string, sym: string) returns (found: bool)
    ensures found <==> Mentions(text, sym)
  {
    if |sym| > |text| {
      return false;
    }
    var p := 0;
    while p <= |text| - |sym|
      invariant 0 <= p <= |text| - |sym| + 1
      invariant forall q :: 0 <= q < p ==> !MentionAt(text, sym, q)
    {
      if MentionAt(text, sym, p) {
        return true;
      }
      p := p + 1;
    }
    return false;
  }

  /** `mentions_symbol`: false for an empty text; otherwise true exactly when
      the gene or one of its aliases is mentioned as a whole word. */
  method MentionsSymbol(text: string, gene: string, aliases: seq<string>) returns (r: bool)
    ensures r <==> text != [] && (Mentions(text, gene) || exists i :: 0 <= i < |aliases| && Mentions(text, aliases[i]))
  {
    if text == [] {
      return false;
    }
    r := FindMention(text, gene);
    if r {
      return true;
    }
    var i := 0;
    while i < |aliases|
      invariant 0 <= i <= |aliases|
      invariant forall j :: 0 <= j < i ==> !Mentions(text, aliases[j])
    {
      r := FindMention(text, aliases[i]);
      if r {
        return true;
      }
      i := i + 1;
    }
    return false;
  }

  // ---------------------------------------------------------------------
  // Properties
  // ---------------------------------------------------------------------

  lemma LowerIdempotent(c: char)
    ensures Lower(Lower(c)) == Lower(c)
    ensures IsWordChar(Lower(c)) == IsWordChar(c)
  {
  }

  /** Case does not matter, neither in the text nor in the symbol:
      lower-casing either one, or both, gives the same answer. */
  lemma MentionsIgnoresCase(text: string, sym: string)
    ensures Mentions(text, sym) <==> Mentions(LowerString(text), LowerString(sym))
    ensures Mentions(text, sym) <==> Mentions(LowerString(text), sym)
    ensures Mentions(text, sym) <==> Mentions(text, LowerString(sym))
  {
    MentionsLowerBoth(text, sym);
    MentionsLowerBoth(LowerString(text), sym);
    MentionsLowerBoth(text, LowerString(sym));
    LowerStringIdempotent(text);
    LowerStringIdempotent(sym);
  }

  lemma LowerStringIdempotent(s: string)
    ensures LowerString(LowerString(s)) == LowerString(s)
  {
    forall k | 0 <= k < |s|
      ensures LowerString(LowerString(s))[k] == LowerString(s)[k]
    {
      LowerIdempotent(s[k]);
    }
  }

  /** Lower-casing text and symbol together keeps every whole-word match. */
  lemma MentionsLowerBoth(text: string, sym: string)
    ensures Mentions(text, sym) <==> Mentions(LowerString(text), LowerString(sym))
  {
    var lt := LowerString(text);
    var ls := LowerString(sym);
    forall p | 0 <= p <= |text|
      ensures MentionAt(text, sym, p) <==> MentionAt(lt, ls, p)
    {
      forall k | 0 <= k < |text|
        ensures Lower(lt[k]) == Lower(text[k]) && (IsWordChar(lt[k]) <==> IsWordChar(text[k]))
      {
        LowerIdempotent(text[k]);
      }
      forall k | 0 <= k < |sym|
        ensures Lower(ls[k]) == Lower(sym[k])
      {
        LowerIdempotent(sym[k]);
      }
    }
    if Mentions(text, sym) {
      var p :| 0 <= p <= |text| && MentionAt(text, sym, p);
      assert MentionAt(lt, ls, p);
    }
    if Mentions(lt, ls) {
      var p :| 0 <= p <= |lt| && MentionAt(lt, ls, p);
      assert MentionAt(text, sym, p);
    }
  }

  /** A symbol set off by punctuation, spaces or the ends of the text is
      mentioned: "EGFR" is mentioned in "anti-EGFR,". */
  lemma MentionedBetweenNonWords(before: string, sym: string, after: string)
    requires before == [] || !IsWordChar(before[|before| - 1])
    requires after == [] || !IsWordChar(after[0])
    ensures Mentions(before + sym + after, sym)
  {
    var text := before + sym + after;
    var p := |before|;
    assert LiteralAt(text, sym, p) by {
      forall k | 0 <= k < |sym|
        ensures Lower(text[p + k]) == Lower(sym[k])
      {
        assert text[p + k] == (before + sym)[p + k] == sym[k];
      }
    }
    if before != [] {
      assert text[p - 1] == (before + sym)[p - 1] == before[|before| - 1];
    }
    if after != [] {
      assert text[p + |sym|] == after[0];
    }
    assert MentionAt(text, sym, p);
  }

  /** A symbol is not mentioned where a word character follows it:
      "EGFR" is not mentioned in "EGFR2". */
  lemma NotMentionedWithWordSuffix(sym: string, c: char)
    requires IsWordChar(c)
    ensures !Mentions(sym + [c], sym)
  {
    var text := sym + [c];
    forall p | 0 <= p <= |text|
      ensures !MentionAt(text, sym, p)
    {
      if p == 1 && sym != [] && LiteralAt(text, sym, 1) {
        // each character of sym matches the one after it, the last matches c
        forall k | 0 <= k < |sym| - 1
          ensures Lower(sym[k]) == Lower(sym[k + 1])
        {
          assert text[1 + k] == sym[k + 1];
        }
        assert text[1 + (|sym| - 1)] == c;
        LowerChain(sym, c);
        LowerIdempotent(sym[0]);
        LowerIdempotent(c);
        assert text[0] == sym[0];
      }
    }
  }

  /** Characters linked pairwise under lower-casing, ending at `c`, all
      lower-case to what `c` does. */
  lemma {:induction false} LowerChain(sym: string, c: char)
    requires sym != []
    requires forall k :: 0 <= k < |sym| - 1 ==> Lower(sym[k]) == Lower(sym[k + 1])
    requires Lower(sym[|sym| - 1]) == Lower(c)
    ensures Lower(sym[0]) == Lower(c)
    decreases |sym|
  {
    if |sym| > 1 {
      var rest := sym[1..];
      forall k | 0 <= k < |rest| - 1
        ensures Lower(rest[k]) == Lower(rest[k + 1])
      {
        assert rest[k] == sym[k + 1] && rest[k + 1] == sym[k + 2];
      }
      assert rest[|rest| - 1] == sym[|sym| - 1];
      LowerChain(rest, c);
      assert rest[0] == sym[1];
    }
  }

  /** The guard for an empty text matters: the pattern built from an
      empty symbol matches the empty text, but the matcher says no. */
  lemma EmptyTextGuard()
    ensures Mentions("", "")
  {
    assert MentionAt("", "", 0);
  }
}
