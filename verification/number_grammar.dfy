/** The number lexemes the tokenizer accepts, written as a grammar, and the
    theorem that JSON_next_token (json_parser.c:222-273) takes the longest prefix
    of the input that the grammar accepts.

    The grammar is section 6 of RFC 8259 with the deviations of the code: the
    integer part may be empty after a `-`, so `-.5` and `-e5` are numbers, but a
    lone `-` is not. */
module NumberGrammar {
  import opened Bytes
  import opened Tokenizer

  /** t[i..j] is a non-empty run of digits. */
  predicate Digits(t: seq<byte>, i: nat, j: nat) {
    i < j <= |t| && forall k | i <= k < j :: IsDigit(t[k])
  }

  /** t[..a] is the optional minus sign. */
  predicate SignPart(t: seq<byte>, a: nat) {
    a == 0 || (a == 1 && |t| >= 1 && t[0] == MINUS)
  }

  /** t[a..b] is the integer part: `0`, digits not starting with `0`, or nothing
      after a sign. */
  predicate IntegerPart(t: seq<byte>, a: nat, b: nat) {
    a <= b <= |t|
    && if a == b then a == 1
       else if t[a] == ZERO then b == a + 1
       else Digits(t, a, b)
  }

  /** t[b..c] is the optional fraction: `.` and at least one digit. */
  predicate FractionPart(t: seq<byte>, b: nat, c: nat) {
    b == c || (b < c && Digits(t, b + 1, c) && t[b] == DOT)
  }

  /** t[c..] is the optional exponent: `e` or `E`, an optional sign, at least one digit. */
  predicate ExponentPart(t: seq<byte>, c: nat) {
    c == |t|
    || (c < |t| && IsExponentMarker(t[c])
        && (Digits(t, c + 1, |t|) || (c + 1 < |t| && IsSign(t[c + 1]) && Digits(t, c + 2, |t|))))
  }

  predicate NumberSplit(t: seq<byte>, a: nat, b: nat, c: nat) {
    a <= b <= c <= |t| && SignPart(t, a) && IntegerPart(t, a, b) && FractionPart(t, b, c) && ExponentPart(t, c)
  }

  /** `t` is a number lexeme: sign, integer, fraction, exponent, and not a lone `-`. */
  ghost predicate NumberLexeme(t: seq<byte>) {
    t != [MINUS] && exists a: nat, b: nat, c: nat :: NumberSplit(t, a, b, c)
  }

  /** Any split of a prefix of the input starting at `first` ends no later than
      where the tokenizer's integer, fraction and exponent phases end. */
  lemma {:induction false} SplitWithinScan(src: seq<byte>, first: nat, m: nat, a: nat, b: nat, c: nat)
    requires first < m <= |src| && (src[first] == MINUS || IsDigit(src[first]))
    requires NumberSplit(src[first..m], a, b, c)
    ensures m <= ExponentEnd(src, FractionEnd(src, IntegerEnd(src, first)))
  {
    var t := src[first..m];
    var i := IntegerEnd(src, first);
    var f := FractionEnd(src, i);
    var e := ExponentEnd(src, f);
    IntegerWithinScan(src, first, m, a, b, c);
    if first + b < i {
      return;
    }
    assert first + b == i;
    FractionWithinScan(src, first, m, b, c);
    if first + c < f {
      return;
    }
    assert first + c == f;
    ExponentWithinScan(src, first, m, c);
  }

  /** The integer part of a split ends no later than the tokenizer's, and if it
      ends earlier the split has nothing after its integer part. */
  lemma IntegerWithinScan(src: seq<byte>, first: nat, m: nat, a: nat, b: nat, c: nat)
    requires first < m <= |src| && (src[first] == MINUS || IsDigit(src[first]))
    requires NumberSplit(src[first..m], a, b, c)
    ensures first + b <= IntegerEnd(src, first)
    ensures first + b < IntegerEnd(src, first) ==> b == c == m - first
  {
    var t := src[first..m];
    var i := IntegerEnd(src, first);
    assert forall k | 0 <= k < |t| :: t[k] == src[first + k];
  }

  /** With the integer parts aligned, the fraction of a split ends no later than
      the tokenizer's, and if earlier the split has no exponent. */
  lemma FractionWithinScan(src: seq<byte>, first: nat, m: nat, b: nat, c: nat)
    requires first < m <= |src| && (src[first] == MINUS || IsDigit(src[first]))
    requires b <= c <= m - first
    requires FractionPart(src[first..m], b, c) && ExponentPart(src[first..m], c)
    requires first + b == IntegerEnd(src, first)
    ensures first + c <= FractionEnd(src, first + b)
    ensures first + c < FractionEnd(src, first + b) ==> c == m - first
  {
    var t := src[first..m];
    var i := first + b;
    assert forall k | 0 <= k < |t| :: t[k] == src[first + k];
  }

  /** With the integer and fraction parts aligned, the exponent of a split ends no
      later than the tokenizer's. */
  lemma ExponentWithinScan(src: seq<byte>, first: nat, m: nat, c: nat)
    requires first < m <= |src|
    requires c <= m - first
    requires ExponentPart(src[first..m], c)
    requires first + c <= |src|
    ensures m <= ExponentEnd(src, first + c)
  {
    var t := src[first..m];
    var f := first + c;
    assert forall k | 0 <= k < |t| :: t[k] == src[first + k];
    if c < |t| {
      var d := ExponentDigitsStart(src, f);
      assert IsExponentMarker(src[f]);
      if Digits(t, c + 1, |t|) {
        assert IsDigit(src[f + 1]) && d == f + 1;
      } else {
        assert IsSign(src[f + 1]) && IsDigit(src[f + 2]) && d == f + 2;
      }
      assert forall k | d <= k < m :: IsDigit(src[k]);
    }
  }

  /** The bytes the tokenizer takes form a split of the grammar. */
  lemma ScanIsSplit(src: seq<byte>, first: nat)
    requires first < |src| && (src[first] == MINUS || IsDigit(src[first]))
    ensures var i := IntegerEnd(src, first);
            var f := FractionEnd(src, i);
            var e := ExponentEnd(src, f);
            var a := if src[first] == MINUS then 1 else 0;
            NumberSplit(src[first..e], a, i - first, f - first)
  {
    var i := IntegerEnd(src, first);
    var f := FractionEnd(src, i);
    var e := ExponentEnd(src, f);
    IntegerOfScan(src, first, e);
    FractionOfScan(src, first, i, e);
    ExponentOfScan(src, first, f);
  }

  lemma IntegerOfScan(src: seq<byte>, first: nat, m: nat)
    requires first < |src| && (src[first] == MINUS || IsDigit(src[first]))
    requires IntegerEnd(src, first) <= m <= |src|
    ensures var a := if src[first] == MINUS then 1 else 0;
            SignPart(src[first..m], a) && IntegerPart(src[first..m], a, IntegerEnd(src, first) - first)
  {
    var t := src[first..m];
    var i := IntegerEnd(src, first);
    var a := if src[first] == MINUS then 1 else 0;
    assert t[0] == src[first];
    if a < i - first && t[a] != ZERO {
      assert forall k | a <= k < i - first :: t[k] == src[first + k];
    }
  }

  lemma FractionOfScan(src: seq<byte>, first: nat, i: nat, m: nat)
    requires first <= i <= |src|
    requires FractionEnd(src, i) <= m <= |src|
    ensures FractionPart(src[first..m], i - first, FractionEnd(src, i) - first)
  {
    var t := src[first..m];
    var f := FractionEnd(src, i);
    if i < f {
      assert t[i - first] == src[i];
      assert forall k | i - first + 1 <= k < f - first :: t[k] == src[first + k];
    }
  }

  lemma ExponentOfScan(src: seq<byte>, first: nat, f: nat)
    requires first <= f <= |src|
    ensures ExponentPart(src[first..ExponentEnd(src, f)], f - first)
  {
    var e := ExponentEnd(src, f);
    var t := src[first..e];
    if f < e {
      var d := ExponentDigitsStart(src, f);
      assert t[f - first] == src[f];
      assert forall k | d - first <= k < e - first :: t[k] == src[first + k];
      if d == f + 2 {
        assert t[f - first + 1] == src[f + 1];
      }
    }
  }

  /** Every lexeme that is a prefix of the input from `first` ends within the scan. */
  lemma LexemesWithinScan(src: seq<byte>, first: nat)
    requires first < |src| && (src[first] == MINUS || IsDigit(src[first]))
    ensures forall m | first < m <= |src| && NumberLexeme(src[first..m]) ::
              m <= ExponentEnd(src, FractionEnd(src, IntegerEnd(src, first)))
  {
    forall m | first < m <= |src| && NumberLexeme(src[first..m])
      ensures m <= ExponentEnd(src, FractionEnd(src, IntegerEnd(src, first)))
    {
      var a: nat, b: nat, c: nat :| NumberSplit(src[first..m], a, b, c);
      SplitWithinScan(src, first, m, a, b, c);
    }
  }

  /** A Number token is the longest prefix of the rest of the input that is a number
      lexeme; an Error from a `-` means no non-empty prefix is one. So `01` yields
      `0`, and `1.`, `1e` and `1e+` give back their `.`, `e` and `e+`. */
  lemma NumberTokenIsLongestLexeme(src: seq<byte>, at: nat)
    requires var s := SkipWhiteSpace(src, at); s < |src| && (src[s] == MINUS || IsDigit(src[s]))
    ensures var s := SkipWhiteSpace(src, at);
            var r := Lex(src, at);
            && (r.token.kind == Number || r.token.kind == Error)
            && r.token.value.start == s
            && (r.token.kind == Number ==>
                  && r.at == s + r.token.value.size
                  && NumberLexeme(Slice(src, r.token.value))
                  && forall m | r.at < m <= |src| :: !NumberLexeme(src[s..m]))
            && (r.token.kind == Error ==> forall m | s < m <= |src| :: !NumberLexeme(src[s..m]))
  {
    var s := SkipWhiteSpace(src, at);
    LexDispatchesNumber(src, at);
    if ScanNumber(src, s).token.kind == Number {
      NumberScanIsLongest(src, s);
    } else {
      ErrorScanHasNoLexeme(src, s);
    }
  }

  lemma NumberScanIsLongest(src: seq<byte>, s: nat)
    requires s < |src| && (src[s] == MINUS || IsDigit(src[s]))
    requires ScanNumber(src, s).token.kind == Number
    ensures var r := ScanNumber(src, s);
            && r.token.value.start == s
            && r.at == s + r.token.value.size
            && NumberLexeme(Slice(src, r.token.value))
            && forall m | r.at < m <= |src| :: !NumberLexeme(src[s..m])
  {
    var r := ScanNumber(src, s);
    var e := ExponentEnd(src, FractionEnd(src, IntegerEnd(src, s)));
    LexemesWithinScan(src, s);
    ScanIsSplit(src, s);
    assert Slice(src, r.token.value) == src[s..e];
    assert src[s..e] != [MINUS] by {
      assert src[e - 1] != MINUS;
      if e == s + 1 {
        assert src[s..e][0] == src[s];
      }
    }
  }

  lemma ErrorScanHasNoLexeme(src: seq<byte>, s: nat)
    requires s < |src| && (src[s] == MINUS || IsDigit(src[s]))
    requires ScanNumber(src, s).token.kind != Number
    ensures var r := ScanNumber(src, s);
            && r.token.kind == Error
            && r.token.value.start == s
            && forall m | s < m <= |src| :: !NumberLexeme(src[s..m])
  {
    LexemesWithinScan(src, s);
    forall m | s < m <= |src|
      ensures !NumberLexeme(src[s..m])
    {
      if m == s + 1 {
        assert src[s..m] == [MINUS];
      }
    }
  }

  /** The bytes a number lexeme can hold. */
  predicate IsNumberByte(c: byte) {
    IsDigit(c) || IsSign(c) || c == DOT || IsExponentMarker(c)
  }

  /** A number lexeme starts with `-` or a digit and holds only number bytes. */
  lemma LexemeBytes(t: seq<byte>)
    requires NumberLexeme(t)
    ensures |t| > 0 && (t[0] == MINUS || IsDigit(t[0]))
    ensures forall k | 0 <= k < |t| :: IsNumberByte(t[k])
  {
    var a: nat, b: nat, c: nat :| NumberSplit(t, a, b, c);
    forall k | 0 <= k < |t|
      ensures IsNumberByte(t[k])
    {
      if c <= k && c + 1 < |t| && !Digits(t, c + 1, |t|) {
        assert k == c || k == c + 1 || IsDigit(t[k]);
      }
    }
  }

  /** A number lexeme followed by a byte no lexeme holds, or by the end of the
      input, is lexed as one Number token: the tokenizer stops exactly after it. */
  lemma LexemeIsScannedWhole(src: seq<byte>, first: nat, t: seq<byte>)
    requires NumberLexeme(t)
    requires first + |t| <= |src| && src[first..first + |t|] == t
    requires first + |t| == |src| || !IsNumberByte(src[first + |t|])
    ensures first < |src| && (src[first] == MINUS || IsDigit(src[first]))
    ensures ScanNumber(src, first) == Scan(Token(Number, Buffer(first, |t|)), first + |t|)
  {
    LexemeBytes(t);
    assert src[first] == t[0];
    if ScanNumber(src, first).token.kind != Number {
      ErrorScanHasNoLexeme(src, first);
      assert false;
    }
    NumberScanIsLongest(src, first);
    var r := ScanNumber(src, first);
    if r.at > first + |t| {
      var u := Slice(src, r.token.value);
      assert u[|t|] == src[first + |t|];
      LexemeBytes(u);
      assert false;
    }
  }
}
