/**
 * `format_polynomial`: renders a term list as text. Zero coefficients are
 * skipped, each remaining term is rendered by one of three rules chosen by
 * its exponent, the pieces are joined with " + ", and finally every " + -"
 * is rewritten to " - ".
 */
module Formatter {
  import opened Polynomial

  /** The separator `str.join` puts between rendered terms. */
  const Separator: string := " + "

  /** The substring the final pass looks for, and what it puts in its place. */
  const PlusMinus: string := " + -"
  const Minus: string := " - "

  // ---------------------------------------------------------------------------
  // Decimal rendering of integers, as Python's `str` on an `int`
  // ---------------------------------------------------------------------------

  function Digit(d: nat): (c: char)
    requires d < 10
    ensures '0' <= c <= '9' && (c as int) - ('0' as int) == d
  {
    "0123456789"[d]
  }

  /** The decimal digits of `n`, most significant first, without leading zeros. */
  function NatToString(n: nat): (s: string)
    ensures |s| >= 1
    ensures forall i :: 0 <= i < |s| ==> '0' <= s[i] <= '9'
    ensures s[0] == '0' ==> n == 0 && s == "0"
  {
    if n < 10 then [Digit(n)] else NatToString(n / 10) + [Digit(n % 10)]
  }

  /** The number a string of decimal digits stands for. */
  function DigitsValue(s: string): int
  {
    if s == [] then 0 else 10 * DigitsValue(s[..|s| - 1]) + ((s[|s| - 1] as int) - ('0' as int))
  }

  /** Reading back the digits gives the number. */
  lemma {:induction false} NatToStringValue(n: nat)
    ensures DigitsValue(NatToString(n)) == n
  {
    var s := NatToString(n);
    if n >= 10 {
      NatToStringValue(n / 10);
      assert s[..|s| - 1] == NatToString(n / 10);
    } else {
      assert s[..0] == [];
    }
  }

  /** Python's `str` of an integer: an optional minus sign, then the digits of the magnitude. */
  function IntToString(c: int): (s: string)
    ensures |s| >= 1
    ensures (s[0] == '-') == (c < 0)
    ensures forall i :: (if c < 0 then 1 else 0) <= i < |s| ==> '0' <= s[i] <= '9'
  {
    if c < 0 then "-" + NatToString(-c) else NatToString(c)
  }

  /** The integer a rendered coefficient stands for. */
  function ParseInt(s: string): int
  {
    if |s| > 0 && s[0] == '-' then -DigitsValue(s[1..]) else DigitsValue(s)
  }

  /** Integer rendering is faithful: it reads back as the same integer. */
  lemma IntToStringRoundTrip(c: int)
    ensures ParseInt(IntToString(c)) == c
  {
    if c < 0 {
      NatToStringValue(-c);
      assert IntToString(c)[1..] == NatToString(-c);
    } else {
      NatToStringValue(c);
    }
  }

  // ---------------------------------------------------------------------------
  // Rendering the terms
  // ---------------------------------------------------------------------------

  /** The coefficient in front of `x`: omitted when it is exactly 1 (but not when it is -1). */
  function CoeffPrefix(c: int): string
  {
    if c != 1 then IntToString(c) else ""
  }

  /** The three rendering rules, chosen by the exponent. */
  function RenderTerm(t: Term): (s: string)
    ensures |s| >= 1
    ensures (s[0] == '-') == (t.coeff < 0)
    ensures ('x' in s) == (t.exp != 0)
    ensures ('^' in s) == (t.exp >= 2)
  {
    if t.exp == 0 then IntToString(t.coeff)
    else if t.exp == 1 then CoeffPrefix(t.coeff) + "x"
    else CoeffPrefix(t.coeff) + "x^" + NatToString(t.exp)
  }

  /** The rendered non-zero terms, in list order: the `term_str` list `format_polynomial` builds. */
  function RenderedTerms(p: Poly): seq<string>
  {
    if p == [] then []
    else RenderedTerms(p[..|p| - 1]) + (if p[|p| - 1].coeff == 0 then [] else [RenderTerm(p[|p| - 1])])
  }

  /** The terms with a non-zero coefficient, in list order. */
  function NonZero(p: Poly): (r: Poly)
    ensures forall k :: 0 <= k < |r| ==> r[k].coeff != 0
  {
    if p == [] then []
    else NonZero(p[..|p| - 1]) + (if p[|p| - 1].coeff == 0 then [] else [p[|p| - 1]])
  }

  // ---------------------------------------------------------------------------
  // Python's `str.join` and `str.replace`
  // ---------------------------------------------------------------------------

  /** `sep.join(parts)`: the parts in order with `sep` between neighbours. */
  function Join(parts: seq<string>, sep: string): (r: string)
    ensures parts == [] ==> r == ""
    ensures |parts| > 0 ==> parts[0] <= r
    ensures |parts| == 1 ==> r == parts[0]
  {
    if parts == [] then "" else parts[0] + JoinTail(parts[1..], sep)
  }

  /** Every part preceded by a separator. */
  function JoinTail(parts: seq<string>, sep: string): string
  {
    if parts == [] then "" else sep + parts[0] + JoinTail(parts[1..], sep)
  }

  /**
   * `s.replace(pat, rep)`: scans left to right and replaces every
   * non-overlapping occurrence of the (non-empty) pattern.
   */
  function ReplaceAll(s: string, pat: string, rep: string): (r: string)
    requires |pat| > 0
    ensures |rep| <= |pat| ==> |r| <= |s|
    decreases |s|
  {
    if |s| < |pat| then s
    else if s[..|pat|] == pat then rep + ReplaceAll(s[|pat|..], pat, rep)
    else [s[0]] + ReplaceAll(s[1..], pat, rep)
  }

  /** `pat` occurs somewhere in `s`. */
  predicate Occurs(s: string, pat: string)
    decreases |s|
  {
    |s| >= |pat| && (s[..|pat|] == pat || (|s| > 0 && Occurs(s[1..], pat)))
  }

  /** The specification of the whole formatter. */
  function Format(p: Poly): string
  {
    ReplaceAll(Join(RenderedTerms(p), Separator), PlusMinus, Minus)
  }

  /**
   * `format_polynomial`'s loop, term by term: skip a zero coefficient, otherwise
   * append the rendering chosen by the exponent; then join and rewrite.
   */
  method FormatPolynomial(terms: Poly) returns (s: string)
    ensures s == Format(terms)
    ensures !Occurs(s, PlusMinus)
  {
    var termStr: seq<string> := [];
    for i := 0 to |terms|
      invariant termStr == RenderedTerms(terms[..i])
    {
      assert terms[..i + 1][..i] == terms[..i];
      var multp, potencia := terms[i].coeff, terms[i].exp;
      if multp == 0 {
        continue;
      }
      if potencia == 0 {
        termStr := termStr + [IntToString(multp)];
      } else if potencia == 1 {
        termStr := termStr + [(if multp != 1 then IntToString(multp) else "") + "x"];
      } else {
        termStr := termStr + [(if multp != 1 then IntToString(multp) else "") + "x^" + NatToString(potencia)];
      }
    }
    assert terms[..|terms|] == terms;
    s := ReplaceAll(Join(termStr, Separator), PlusMinus, Minus);
    FormatNoPlusMinus(terms);
  }

  // ---------------------------------------------------------------------------
  // Properties of the rendered list
  // ---------------------------------------------------------------------------

  /** Rendering a concatenation renders each half. */
  lemma {:induction false} RenderedTermsAppend(p: Poly, q: Poly)
    ensures RenderedTerms(p + q) == RenderedTerms(p) + RenderedTerms(q)
  {
    if q == [] {
      assert p + q == p;
    } else {
      var n := |q| - 1;
      assert (p + q)[..|p + q| - 1] == p + q[..n];
      assert (p + q)[|p + q| - 1] == q[n];
      RenderedTermsAppend(p, q[..n]);
    }
  }

  /** One rendered string per non-zero term, in list order, each by the rendering rules. */
  lemma {:induction false} RenderedTermsShape(p: Poly)
    ensures |RenderedTerms(p)| == |NonZero(p)|
    ensures forall k :: 0 <= k < |RenderedTerms(p)| ==> RenderedTerms(p)[k] == RenderTerm(NonZero(p)[k])
  {
    if p != [] {
      RenderedTermsShape(p[..|p| - 1]);
    }
  }

  /** A list whose coefficients are all zero (the empty list among them) renders nothing. */
  lemma {:induction false} RenderedTermsAllZero(p: Poly)
    requires forall k :: 0 <= k < |p| ==> p[k].coeff == 0
    ensures RenderedTerms(p) == []
  {
    if p != [] {
      RenderedTermsAllZero(p[..|p| - 1]);
    }
  }

  // ---------------------------------------------------------------------------
  // The join-then-rewrite pass
  // ---------------------------------------------------------------------------

  /** Free of spaces and plus signs. */
  predicate Clean(w: string)
  {
    forall i :: 0 <= i < |w| ==> w[i] != ' ' && w[i] != '+'
  }

  /** A rendered term: non-empty and clean. */
  predicate IsToken(w: string)
  {
    |w| > 0 && Clean(w)
  }

  /** No string in the list contains a space or a plus sign. */
  predicate AllTokens(parts: seq<string>)
  {
    forall k :: 0 <= k < |parts| ==> IsToken(parts[k])
  }

  lemma CleanConcat(a: string, b: string)
    requires Clean(a) && Clean(b)
    ensures Clean(a + b)
  {
    forall i | 0 <= i < |a + b|
      ensures (a + b)[i] != ' ' && (a + b)[i] != '+'
    {
      if i >= |a| {
        assert (a + b)[i] == b[i - |a|];
      }
    }
  }

  /** Decimal renderings are non-empty and clean. */
  lemma IntToStringIsToken(c: int)
    ensures IsToken(IntToString(c))
  {
    if c < 0 {
      CleanConcat("-", NatToString(-c));
    }
  }

  /** Every term renders to a token. */
  lemma RenderTermIsToken(t: Term)
    ensures IsToken(RenderTerm(t))
  {
    IntToStringIsToken(t.coeff);
    var prefix := CoeffPrefix(t.coeff);
    assert Clean(prefix);
    if t.exp == 1 {
      CleanConcat(prefix, "x");
    } else if t.exp > 1 {
      CleanConcat(prefix, "x^");
      CleanConcat(prefix + "x^", NatToString(t.exp));
    }
  }

  /** The rendered list consists of tokens. */
  lemma RenderedTermsAreTokens(p: Poly)
    ensures AllTokens(RenderedTerms(p))
  {
    RenderedTermsShape(p);
    forall k | 0 <= k < |RenderedTerms(p)|
      ensures IsToken(RenderedTerms(p)[k])
    {
      RenderTermIsToken(NonZero(p)[k]);
    }
  }

  /** How one separator-prefixed token reads after the rewrite. */
  function SignedPiece(t: string): string
    requires |t| > 0
  {
    if t[0] == '-' then Minus + t[1..] else Separator + t
  }

  /** The rewritten tail: a negative token gets " - " and loses its sign, others get " + ". */
  function SignedTail(parts: seq<string>): string
    requires AllTokens(parts)
  {
    if parts == [] then "" else SignedPiece(parts[0]) + SignedTail(parts[1..])
  }

  /** The joined-and-rewritten string, described directly. */
  function SignedJoin(parts: seq<string>): string
    requires AllTokens(parts)
  {
    if parts == [] then "" else parts[0] + SignedTail(parts[1..])
  }

  /** `s` starts with " + -", spelled out character by character. */
  predicate StartsPlusMinus(s: string)
  {
    |s| >= 4 && s[0] == ' ' && s[1] == '+' && s[2] == ' ' && s[3] == '-'
  }

  lemma StartsPlusMinusPrefix(s: string)
    ensures StartsPlusMinus(s) <==> |s| >= |PlusMinus| && s[..|PlusMinus|] == PlusMinus
  {
    if |s| >= 4 && s[..4] == PlusMinus {
      assert s[..4][1] == '+';
    }
  }

  /** Where the pattern does not start at the front, the rewrite copies the first character. */
  lemma ReplaceStep(s: string)
    requires |s| >= 1
    requires !StartsPlusMinus(s)
    ensures ReplaceAll(s, PlusMinus, Minus) == [s[0]] + ReplaceAll(s[1..], PlusMinus, Minus)
  {
    StartsPlusMinusPrefix(s);
    if |s| < |PlusMinus| {
      assert ReplaceAll(s, PlusMinus, Minus) == s;
      assert ReplaceAll(s[1..], PlusMinus, Minus) == s[1..];
      assert s == [s[0]] + s[1..];
    } else {
      assert s[..|PlusMinus|] != PlusMinus;
    }
  }

  /** No occurrence of " + -" starts at any of the first `n` positions of `u`. */
  predicate NoStartBefore(u: string, n: nat)
  {
    forall i :: 0 <= i < n && i <= |u| ==> !StartsPlusMinus(u[i..])
  }

  /** Dropping the first character of `w` keeps the property for the rest. */
  lemma NoStartShift(w: string, s: string)
    requires w != []
    requires NoStartBefore(w + s, |w|)
    ensures !StartsPlusMinus(w + s)
    ensures (w + s)[1..] == w[1..] + s
    ensures NoStartBefore(w[1..] + s, |w| - 1)
  {
    var u := w + s;
    assert u[0..] == u;
    assert u[1..] == w[1..] + s;
    forall i | 0 <= i < |w| - 1 && i <= |u| - 1
      ensures !StartsPlusMinus((w[1..] + s)[i..])
    {
      assert u[1..][i..] == u[i + 1..];
    }
  }

  /** Where no occurrence starts inside `w`, the rewrite copies `w` unchanged. */
  lemma {:induction false} ReplaceCopy(w: string, s: string)
    requires NoStartBefore(w + s, |w|)
    ensures ReplaceAll(w + s, PlusMinus, Minus) == w + ReplaceAll(s, PlusMinus, Minus)
  {
    if w == [] {
      assert w + s == s;
    } else {
      var u := w + s;
      NoStartShift(w, s);
      ReplaceStep(u);
      ReplaceCopy(w[1..], s);
      assert u[0] == w[0] && u[1..] == w[1..] + s;
      assert w == [w[0]] + w[1..];
    }
  }

  /** Where no occurrence starts inside `w`, any occurrence lies in `s`. */
  lemma {:induction false} OccursCopy(w: string, s: string)
    requires NoStartBefore(w + s, |w|)
    ensures Occurs(w + s, PlusMinus) == Occurs(s, PlusMinus)
  {
    if w == [] {
      assert w + s == s;
    } else {
      NoStartShift(w, s);
      StartsPlusMinusPrefix(w + s);
      OccursCopy(w[1..], s);
    }
  }

  /** A token followed by a string that is empty or starts with a space starts no occurrence. */
  lemma TokenNoStart(w: string, s: string)
    requires forall i :: 0 <= i < |w| ==> w[i] != ' '
    ensures NoStartBefore(w + s, |w|)
  {
    forall i | 0 <= i < |w| && i <= |w + s|
      ensures !StartsPlusMinus((w + s)[i..])
    {
      assert (w + s)[i..][0] == w[i];
    }
  }

  /** A prefix without spaces cannot hold the start of " + -", so it is copied unchanged. */
  lemma ReplaceSkip(w: string, s: string)
    requires forall i :: 0 <= i < |w| ==> w[i] != ' '
    ensures ReplaceAll(w + s, PlusMinus, Minus) == w + ReplaceAll(s, PlusMinus, Minus)
  {
    TokenNoStart(w, s);
    ReplaceCopy(w, s);
  }

  /** A prefix without spaces holds no occurrence. */
  lemma OccursSkip(w: string, s: string)
    requires forall i :: 0 <= i < |w| ==> w[i] != ' '
    ensures Occurs(w + s, PlusMinus) == Occurs(s, PlusMinus)
  {
    TokenNoStart(w, s);
    OccursCopy(w, s);
  }

  /** " + " followed by a token that is not negative starts no occurrence. */
  lemma PlusPieceNoStart(t: string, s: string)
    requires IsToken(t) && t[0] != '-'
    ensures NoStartBefore(Separator + t + s, |Separator + t|)
  {
    var u := Separator + t + s;
    assert u[3] == t[0];
    forall i | 0 <= i < |Separator + t| && i <= |u|
      ensures !StartsPlusMinus(u[i..])
    {
      if i >= 3 {
        assert u[i..][0] == t[i - 3];
      }
    }
  }

  /** " - " followed by a token body and a string that is empty or starts with a space starts no occurrence. */
  lemma MinusPieceNoStart(v: string, s: string)
    requires forall i :: 0 <= i < |v| ==> v[i] != ' ' && v[i] != '+'
    requires s == [] || s[0] == ' '
    ensures NoStartBefore(Minus + v + s, |Minus + v|)
  {
    var u := Minus + v + s;
    forall i | 0 <= i < |Minus + v| && i <= |u|
      ensures !StartsPlusMinus(u[i..])
    {
      if i == 2 && |u| >= 4 {
        if |v| > 0 {
          assert u[3] == v[0];
        } else {
          assert u[3] == s[0];
        }
      } else if i >= 3 {
        assert u[i..][0] == v[i - 3];
      }
    }
  }

  /** The rewrite of " + " followed by a negative token: the sign merges into " - ". */
  lemma ReplaceNegativeSeparator(t: string, s: string)
    requires IsToken(t) && t[0] == '-'
    ensures ReplaceAll(Separator + t + s, PlusMinus, Minus) == Minus + t[1..] + ReplaceAll(s, PlusMinus, Minus)
  {
    var u := Separator + t + s;
    assert StartsPlusMinus(u);
    StartsPlusMinusPrefix(u);
    assert u[4..] == t[1..] + s;
    ReplaceSkip(t[1..], s);
  }

  /** The rewrite of " + " followed by a token that is not negative: nothing changes. */
  lemma ReplacePlainSeparator(t: string, s: string)
    requires IsToken(t) && t[0] != '-'
    ensures ReplaceAll(Separator + t + s, PlusMinus, Minus) == Separator + t + ReplaceAll(s, PlusMinus, Minus)
  {
    PlusPieceNoStart(t, s);
    ReplaceCopy(Separator + t, s);
  }

  /** The rewrite of one " + " followed by a token. */
  lemma ReplaceSeparator(t: string, s: string)
    requires IsToken(t)
    ensures ReplaceAll(Separator + t + s, PlusMinus, Minus) == SignedPiece(t) + ReplaceAll(s, PlusMinus, Minus)
  {
    if t[0] == '-' {
      ReplaceNegativeSeparator(t, s);
    } else {
      ReplacePlainSeparator(t, s);
    }
  }

  /** Rewriting the joined tail yields the signed tail. */
  lemma {:induction false} ReplaceJoinTail(parts: seq<string>)
    requires AllTokens(parts)
    ensures ReplaceAll(JoinTail(parts, Separator), PlusMinus, Minus) == SignedTail(parts)
  {
    if parts != [] {
      ReplaceSeparator(parts[0], JoinTail(parts[1..], Separator));
      assert JoinTail(parts, Separator) == Separator + parts[0] + JoinTail(parts[1..], Separator);
      ReplaceJoinTail(parts[1..]);
    }
  }

  /**
   * The join-then-rewrite pass on tokens: the first token is kept as is, every
   * later negative token is preceded by " - " without its own sign, every other
   * later token by " + ".
   */
  lemma ReplaceJoin(parts: seq<string>)
    requires AllTokens(parts)
    ensures ReplaceAll(Join(parts, Separator), PlusMinus, Minus) == SignedJoin(parts)
  {
    if parts != [] {
      ReplaceSkip(parts[0], JoinTail(parts[1..], Separator));
      ReplaceJoinTail(parts[1..]);
    }
  }

  /** The signed tail is empty or starts with a space. */
  lemma SignedTailStart(parts: seq<string>)
    requires AllTokens(parts)
    ensures SignedTail(parts) == [] || SignedTail(parts)[0] == ' '
  {
  }

  /** The signed tail holds no " + -". */
  lemma {:induction false} SignedTailClean(parts: seq<string>)
    requires AllTokens(parts)
    ensures !Occurs(SignedTail(parts), PlusMinus)
  {
    if parts != [] {
      var t, rest := parts[0], SignedTail(parts[1..]);
      SignedTailClean(parts[1..]);
      SignedTailStart(parts[1..]);
      if t[0] == '-' {
        MinusPieceNoStart(t[1..], rest);
        OccursCopy(Minus + t[1..], rest);
      } else {
        PlusPieceNoStart(t, rest);
        OccursCopy(Separator + t, rest);
      }
    }
  }

  // ---------------------------------------------------------------------------
  // Properties of the formatter
  // ---------------------------------------------------------------------------

  /**
   * The formatted text is the first rendered term followed, for each later
   * rendered term, by " - " and the term without its leading '-' when it is
   * negative and by " + " and the term otherwise.
   */
  lemma FormatIsSignedJoin(p: Poly)
    ensures AllTokens(RenderedTerms(p))
    ensures Format(p) == SignedJoin(RenderedTerms(p))
  {
    RenderedTermsAreTokens(p);
    ReplaceJoin(RenderedTerms(p));
  }

  /** The final text never contains " + -". */
  lemma FormatNoPlusMinus(p: Poly)
    ensures !Occurs(Format(p), PlusMinus)
  {
    FormatIsSignedJoin(p);
    var parts := RenderedTerms(p);
    if parts != [] {
      SignedTailClean(parts[1..]);
      OccursSkip(parts[0], SignedTail(parts[1..]));
    }
  }

  /** An empty list, or one whose coefficients are all 0, formats to "". */
  lemma FormatAllZero(p: Poly)
    requires forall k :: 0 <= k < |p| ==> p[k].coeff == 0
    ensures Format(p) == ""
  {
    RenderedTermsAllZero(p);
    assert Join([], Separator) == "";
  }

  /** A zero-coefficient term contributes nothing, whatever its exponent and position. */
  lemma FormatSkipsZero(p: Poly, e: nat, q: Poly)
    ensures Format(p + [Term(0, e)] + q) == Format(p + q)
  {
    RenderedTermsSkipZero(p, e, q);
  }

  /** A zero-coefficient term adds no rendered string. */
  lemma RenderedTermsSkipZero(p: Poly, e: nat, q: Poly)
    ensures RenderedTerms(p + [Term(0, e)] + q) == RenderedTerms(p + q)
  {
    var z := [Term(0, e)];
    assert z[..0] == [];
    assert RenderedTerms(z) == [];
    RenderedTermsAppend(p, z);
    assert RenderedTerms(p + z) == RenderedTerms(p);
    RenderedTermsAppend(p + z, q);
    RenderedTermsAppend(p, q);
  }

  /** The formatted text of a single non-zero term is its rendering. */
  lemma FormatSingle(t: Term)
    requires t.coeff != 0
    ensures Format([t]) == RenderTerm(t)
  {
    assert [t][..0] == [];
    assert RenderedTerms([t]) == [RenderTerm(t)];
    assert Join([RenderTerm(t)], Separator) == RenderTerm(t) + "";
    RenderTermIsToken(t);
    ReplaceSkip(RenderTerm(t), "");
    assert ReplaceAll("", PlusMinus, Minus) == "";
  }

  /** A non-zero constant `(c, 0)` formats as the decimal of `c`; `(1, 0)` gives "1". */
  lemma FormatConstant(c: int)
    requires c != 0
    ensures Format([Term(c, 0)]) == IntToString(c)
    ensures c == 1 ==> Format([Term(c, 0)]) == "1"
  {
    FormatSingle(Term(c, 0));
  }

  /** A coefficient of exactly 1 is omitted in front of `x`. */
  lemma FormatUnitCoefficient(e: nat)
    ensures Format([Term(1, 1)]) == "x"
    ensures e >= 2 ==> Format([Term(1, e)]) == "x^" + NatToString(e)
  {
    FormatSingle(Term(1, 1));
    FormatSingle(Term(1, e));
  }

  /** A coefficient of -1 is not omitted. */
  lemma FormatMinusOneCoefficient(e: nat)
    ensures Format([Term(-1, 1)]) == "-1x"
    ensures e >= 2 ==> Format([Term(-1, e)]) == "-1x^" + NatToString(e)
  {
    FormatSingle(Term(-1, 1));
    FormatSingle(Term(-1, e));
    assert IntToString(-1) == "-1";
  }

  /** `sep.join` with k parts holds the parts in order and k-1 separators. */
  lemma {:induction false} JoinAppend(parts: seq<string>, w: string, sep: string)
    requires parts != []
    ensures Join(parts + [w], sep) == Join(parts, sep) + sep + w
  {
    JoinTailAppend(parts[1..], w, sep);
    assert (parts + [w])[1..] == parts[1..] + [w];
  }

  lemma {:induction false} JoinTailAppend(parts: seq<string>, w: string, sep: string)
    ensures JoinTail(parts + [w], sep) == JoinTail(parts, sep) + sep + w
  {
    if parts == [] {
      assert JoinTail([w], sep) == sep + w + JoinTail([], sep);
    } else {
      assert (parts + [w])[1..] == parts[1..] + [w];
      JoinTailAppend(parts[1..], w, sep);
    }
  }

  /** The total length of the parts. */
  function TotalLength(parts: seq<string>): nat
  {
    if parts == [] then 0 else |parts[0]| + TotalLength(parts[1..])
  }

  /** Joining k >= 1 parts adds exactly k-1 separators. */
  lemma {:induction false} JoinLength(parts: seq<string>, sep: string)
    requires parts != []
    ensures |Join(parts, sep)| == TotalLength(parts) + (|parts| - 1) * |sep|
  {
    JoinTailLength(parts[1..], sep);
  }

  lemma {:induction false} JoinTailLength(parts: seq<string>, sep: string)
    ensures |JoinTail(parts, sep)| == TotalLength(parts) + |parts| * |sep|
  {
    if parts != [] {
      JoinTailLength(parts[1..], sep);
    }
  }

  /** A negative leading term and a positive constant: no " + -" arises, so nothing is rewritten. */
  lemma FormatExampleLeadingMinus()
    ensures Format([Term(-2, 1), Term(5, 0)]) == "-2x + 5"
  {
    assert NatToString(2) == "2" && NatToString(5) == "5";
    assert RenderTerm(Term(-2, 1)) == "-2x";
    assert RenderTerm(Term(5, 0)) == "5";
    ExampleSigned([Term(-2, 1), Term(5, 0)], "-2x", "5");
    assert SignedJoin(["-2x", "5"]) == "-2x" + SignedTail(["5"]);
    assert SignedTail(["5"]) == " + 5";
  }

  /** A negative later constant: " + -4" is rewritten to " - 4". */
  lemma FormatExampleRewritten()
    ensures Format([Term(1, 2), Term(-4, 0)]) == "x^2 - 4"
  {
    assert NatToString(2) == "2" && NatToString(4) == "4";
    assert RenderTerm(Term(1, 2)) == "x^2" by {
      assert CoeffPrefix(1) == "";
    }
    assert RenderTerm(Term(-4, 0)) == "-4" by {
      assert IntToString(-4) == "-" + NatToString(4);
    }
    ExampleSigned([Term(1, 2), Term(-4, 0)], "x^2", "-4");
    assert SignedJoin(["x^2", "-4"]) == "x^2" + SignedTail(["-4"]);
    assert SignedTail(["-4"]) == " - 4";
  }

  /** Duplicate exponents are rendered as separate terms, not combined. */
  lemma FormatExampleDuplicates()
    ensures Format([Term(1, 1), Term(1, 1)]) == "x + x"
  {
    assert RenderTerm(Term(1, 1)) == "x";
    ExampleSigned([Term(1, 1), Term(1, 1)], "x", "x");
    assert SignedJoin(["x", "x"]) == "x" + SignedTail(["x"]);
    assert SignedTail(["x"]) == " + x";
  }

  /** A zero term is skipped, whatever its exponent. */
  lemma FormatExampleZeroSkipped()
    ensures Format([Term(0, 2), Term(3, 1)]) == "3x"
  {
    FormatSkipsZero([], 2, [Term(3, 1)]);
    assert [] + [Term(0, 2)] + [Term(3, 1)] == [Term(0, 2), Term(3, 1)];
    assert [] + [Term(3, 1)] == [Term(3, 1)];
    FormatSingle(Term(3, 1));
    assert NatToString(3) == "3";
  }

  /** Two non-zero terms format by the signed join of their renderings. */
  lemma ExampleSigned(p: Poly, a: string, b: string)
    requires |p| == 2 && p[0].coeff != 0 && p[1].coeff != 0
    requires RenderTerm(p[0]) == a && RenderTerm(p[1]) == b
    ensures AllTokens([a, b])
    ensures Format(p) == SignedJoin([a, b])
  {
    assert p[..1][..0] == [];
    assert p[..1] == [p[0]];
    assert RenderedTerms(p[..1]) == [a];
    assert RenderedTerms(p) == [a, b];
    FormatIsSignedJoin(p);
  }
}
