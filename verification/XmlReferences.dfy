/** Character references of any number, written digit by digit, and what TinyXML reads
    them as. */
module XmlReferences {
  import opened Bytes
  import opened TinyXml

  /** A number to be written in decimal or in hexadecimal digits. */
  datatype Reference = Reference(n: nat, hex: bool, upper: bool)

  function Base(r: Reference): (base: nat) {
    if r.hex then 16 else 10
  }

  function Digit(d: nat, upper: bool): (c: byte)
    requires d < 16
  {
    if d < 10 then 48 + d else if upper then 65 + (d - 10) else 97 + (d - 10)
  }

  function Digits(n: nat, base: nat, upper: bool): (digits: bytes)
    requires base == 10 || base == 16
    decreases n
  {
    if n < base then [Digit(n, upper)] else Digits(n / base, base, upper) + [Digit(n % base, upper)]
  }

  /** &#...; or &#x...; */
  function Spelled(r: Reference): (w: bytes) {
    [AMP, HASH] + (if r.hex then [X] else []) + Digits(r.n, Base(r), r.upper) + [SEMI]
  }

  /** The character in UTF-8, or its lowest byte. */
  function Character(n: nat, utf8: bool): (c: bytes) {
    if utf8 then Utf8Of(n) else [n % 256]
  }

  lemma DigitReads(d: nat, base: nat, upper: bool)
    requires (base == 10 || base == 16) && d < base
    ensures DigitOf(Digit(d, upper), base) == Some(d)
    ensures Digit(d, upper) !in {0, HASH, SEMI, X}
  {
  }

  /** The digits are worth the number. */
  lemma {:induction false} DigitsAreWorth(n: nat, base: nat, upper: bool)
    requires base == 10 || base == 16
    ensures var digits := Digits(n, base, upper);
            && digits != [] && AllDigits(digits, base) && Number(digits, base) == n
            && forall k :: 0 <= k < |digits| ==> digits[k] !in {0, HASH, SEMI, X}
    decreases n
  {
    hide AllDigits, Number, DigitOf, Digit;
    DigitReads(n % base, base, upper);
    if n < base {
      DigitReads(n, base, upper);
      assert [] + [Digit(n, upper)] == [Digit(n, upper)];
      NoDigits(base);
      LastDigit([], Digit(n, upper), base);
    } else {
      DigitsAreWorth(n / base, base, upper);
      LastDigit(Digits(n / base, base, upper), Digit(n % base, upper), base);
    }
  }

  lemma NoDigits(base: nat)
    ensures AllDigits([], base) && Number([], base) == 0
  {
  }

  lemma {:induction false} FindsSemi(b: bytes, p: nat, q: nat)
    requires p <= q < |b| && b[q] == SEMI && forall k :: p <= k < q ==> b[k] !in {0, SEMI}
    ensures FindSemi(b, p) == Some(q)
    decreases q - p
  {
    if p < q {
      FindsSemi(b, p + 1, q);
    }
  }

  lemma DigitsBetween(b: bytes, low: nat, r: Reference)
    requires Sits(b, low + 1, Digits(r.n, Base(r), r.upper) + [SEMI])
    ensures var digits := Digits(r.n, Base(r), r.upper);
            var q := low + 1 + |digits|;
            && digits != [] && q < |b| && b[q] == SEMI && b[low + 1..q] == digits
            && forall k :: low < k < q ==> b[k] !in {0, HASH, SEMI, X}
  {
    hide Digits, Number, AllDigits, Sits;
    DigitsAreWorth(r.n, Base(r), r.upper);
    Between(b, low, Digits(r.n, Base(r), r.upper));
  }

  lemma Between(b: bytes, low: nat, digits: bytes)
    requires Sits(b, low + 1, digits + [SEMI])
    requires forall k :: 0 <= k < |digits| ==> digits[k] !in {0, HASH, SEMI, X}
    ensures var q := low + 1 + |digits|;
            && q < |b| && b[q] == SEMI && b[low + 1..q] == digits
            && forall k :: low < k < q ==> b[k] !in {0, HASH, SEMI, X}
  {
    SitsParts(b, low + 1, digits, [SEMI]);
    assert [SEMI][0] == b[low + 1 + |digits|];
    forall k | low < k < low + 1 + |digits|
      ensures b[k] == digits[k - low - 1]
    {
    }
  }

  /** What lies between the stop and the semicolon is read as its number. */
  lemma NumberRead(b: bytes, p: nat, low: nat, stop: byte, r: Reference, utf8: bool)
    requires p <= low < |b| && b[low] == stop && stop in {HASH, X} && r.n < WORD
    requires Sits(b, low + 1, Digits(r.n, Base(r), r.upper) + [SEMI])
    ensures Numeric(b, p, low, stop, Base(r), utf8)
         == Char(Some(low + |Digits(r.n, Base(r), r.upper)| + 2), Character(r.n, utf8))
  {
    hide Digits, Number, AllDigits, Back, Sits, FindSemi, StopAt;
    var digits := Digits(r.n, Base(r), r.upper);
    var q := low + 1 + |digits|;
    DigitsAreWorth(r.n, Base(r), r.upper);
    DigitsBetween(b, low, r);
    FindsSemi(b, low + 1, q);
    assert StopAt(b, low, q - 1, stop) == low;
    BackReads(b, low, q - 1, stop, Base(r));
  }

  lemma Begins(b: bytes, p: nat, r: Reference)
    requires Sits(b, p, Spelled(r))
    ensures p + 2 < |b| && b[p] == AMP && b[p + 1] == HASH && b[p + 2] != 0 && (b[p + 2] == X <==> r.hex)
    ensures var low := if r.hex then p + 2 else p + 1;
            && Sits(b, low + 1, Digits(r.n, Base(r), r.upper) + [SEMI])
            && |Spelled(r)| == low - p + |Digits(r.n, Base(r), r.upper)| + 2
            && (r.hex ==> At(b, p + 3) != 0)
  {
    var digits := Digits(r.n, Base(r), r.upper);
    DigitsAreWorth(r.n, Base(r), r.upper);
    var start := [AMP, HASH] + if r.hex then [X] else [];
    assert Spelled(r) == start + (digits + [SEMI]);
    hide Digits, Number, AllDigits;
    SitsParts(b, p, start, digits + [SEMI]);
    SitsParts(b, p + |start|, digits, [SEMI]);
    assert start[0] == b[p] && start[1] == b[p + 1] && digits[0] == b[p + |start|];
    assert r.hex ==> start[2] == b[p + 2];
  }

  /** Each reference is read as the character of its number. */
  lemma ReferenceRead(b: bytes, p: nat, r: Reference, utf8: bool)
    requires r.n < WORD && Sits(b, p, Spelled(r))
    ensures p < |b| && b[p] == AMP
    ensures GetChar(b, p, utf8) == Char(Some(p + |Spelled(r)|), Character(r.n, utf8))
  {
    hide Spelled, Digits, Sits, Numeric, Character;
    Begins(b, p, r);
    if r.hex {
      NumberRead(b, p, p + 2, X, r, utf8);
    } else {
      NumberRead(b, p, p + 1, HASH, r, utf8);
    }
  }

  function AllSpelled(refs: seq<Reference>): (w: bytes) {
    if refs == [] then [] else Spelled(refs[0]) + AllSpelled(refs[1..])
  }

  function Characters(refs: seq<Reference>, utf8: bool): (c: bytes) {
    if refs == [] then [] else Character(refs[0].n, utf8) + Characters(refs[1..], utf8)
  }

  /** A text of references up to an end tag is read as their characters. */
  lemma {:induction false} ReferencesRead(b: bytes, p: nat, refs: seq<Reference>, tag: bytes, utf8: bool)
    requires Sits(b, p, AllSpelled(refs) + tag) && tag != [] && tag[0] !in {0, AMP}
    requires forall r :: r in refs ==> r.n < WORD
    ensures Text(b, p, tag, utf8) == Char(Some(p + |AllSpelled(refs)|), Characters(refs, utf8))
    decreases |refs|
  {
    hide Spelled, GetChar, Character, Sits, Starts, Text;
    if refs == [] {
      assert AllSpelled(refs) + tag == tag;
      EndsHere(b, p, tag, utf8);
    } else {
      var w, rest := Spelled(refs[0]), AllSpelled(refs[1..]);
      assert AllSpelled(refs) + tag == w + (rest + tag);
      SitsParts(b, p, w, rest + tag);
      ReferenceRead(b, p, refs[0], utf8);
      ReferencesRead(b, p + |w|, refs[1..], tag, utf8);
      NotStarts(b, p, tag, 0);
      TextUnfolds(b, p, tag, utf8);
    }
  }

  lemma EndsHere(b: bytes, p: nat, tag: bytes, utf8: bool)
    requires Sits(b, p, tag)
    ensures Text(b, p, tag, utf8) == Char(Some(p), [])
  {
    StartsIff(b, p, tag);
  }

  // ------------------------------------------------------- what is no reference

  /** An ampersand that begins none of the five entities and no number is dropped. */
  lemma AmpersandDropped(b: bytes, p: nat, utf8: bool)
    requires p < |b| && b[p] == AMP && (At(b, p + 1) != HASH || At(b, p + 2) == 0)
    requires forall c :: c in {AMP, LT, GT, QUOTE, APOS} ==> !Sits(b, p, Esc(c))
    ensures GetChar(b, p, utf8) == Char(Some(p + 1), [])
  {
    hide Sits, Starts, Esc;
    StartsIff(b, p, Esc(AMP));
    StartsIff(b, p, Esc(LT));
    StartsIff(b, p, Esc(GT));
    StartsIff(b, p, Esc(QUOTE));
    StartsIff(b, p, Esc(APOS));
  }

  lemma {:induction false} NoSemi(b: bytes, p: nat)
    requires forall k :: p <= k < |b| ==> b[k] != SEMI
    ensures FindSemi(b, p).None?
    decreases |b| - p
  {
    if p < |b| {
      NoSemi(b, p + 1);
    }
  }

  /** A number without a semicolon ends the reading. */
  lemma UnendedNumber(b: bytes, p: nat, utf8: bool)
    requires p + 2 < |b| && b[p] == AMP && b[p + 1] == HASH && b[p + 2] != 0
    requires forall k :: p + 2 <= k < |b| ==> b[k] != SEMI
    ensures GetChar(b, p, utf8) == Char(None, [])
  {
    NoSemi(b, p + 2);
    NoSemi(b, p + 3);
  }

  /** So does a decimal number with something else than digits in it. */
  lemma NotDecimal(b: bytes, p: nat, q: nat, k: nat, utf8: bool)
    requires p + 2 <= k < q < |b| && b[p] == AMP && b[p + 1] == HASH && b[p + 2] != X && b[q] == SEMI
    requires forall i :: p + 2 <= i < q ==> b[i] !in {0, HASH, SEMI}
    requires !(48 <= b[k] <= 57)
    ensures GetChar(b, p, utf8) == Char(None, [])
  {
    hide Back, StopAt, AllDigits, FindSemi;
    FindsSemi(b, p + 2, q);
    assert StopAt(b, p + 1, q - 1, HASH) == p + 1;
    BackReads(b, p + 1, q - 1, HASH, 10);
    Spoilt(b[p + 2..q], k - p - 2, 10);
  }

  /** And a hexadecimal one. */
  lemma NotHexadecimal(b: bytes, p: nat, q: nat, k: nat, utf8: bool)
    requires p + 3 <= k < q < |b| && b[p] == AMP && b[p + 1] == HASH && b[p + 2] == X && b[q] == SEMI
    requires forall i :: p + 3 <= i < q ==> b[i] !in {0, X, SEMI}
    requires !(48 <= b[k] <= 57) && !(65 <= b[k] <= 70) && !(97 <= b[k] <= 102)
    ensures GetChar(b, p, utf8) == Char(None, [])
  {
    hide Back, StopAt, AllDigits, FindSemi;
    FindsSemi(b, p + 3, q);
    assert StopAt(b, p + 2, q - 1, X) == p + 2;
    BackReads(b, p + 2, q - 1, X, 16);
    Spoilt(b[p + 3..q], k - p - 3, 16);
  }

  lemma Spoilt(digits: bytes, k: nat, base: nat)
    requires k < |digits| && DigitOf(digits[k], base).None?
    ensures !AllDigits(digits, base)
  {
  }

  /** In UTF-8 a byte that begins no character of several bytes is read by itself. */
  lemma StrayByte(b: bytes, p: nat)
    requires p < |b| && (0x80 <= b[p] <= 0xC1 || 0xF5 <= b[p])
    ensures GetChar(b, p, true) == Char(Some(p + 1), [b[p]])
  {
  }

  // ------------------------------------------------------------- what is written

  function Ascii(s: string): (b: bytes)
    requires forall k :: 0 <= k < |s| ==> s[k] as int < 128
    ensures |b| == |s|
  {
    seq(|s|, k requires 0 <= k < |s| => s[k] as int)
  }

  /** The five entities have the names of section 4.6 of XML 1.0, and a control character is
      written as the two hexadecimal digits of its number, in capitals. */
  lemma EntityNames(c: byte)
    ensures Esc(AMP) == Ascii("&amp;") && Esc(LT) == Ascii("&lt;") && Esc(GT) == Ascii("&gt;")
    ensures Esc(QUOTE) == Ascii("&quot;") && Esc(APOS) == Ascii("&apos;")
    ensures c < 32 ==> |Esc(c)| == 6 && Esc(c)[..3] == Ascii("&#x") && Esc(c)[5..] == Ascii(";")
    ensures c < 32 ==> AllDigits(Esc(c)[3..5], 16) && Number(Esc(c)[3..5], 16) == c
    ensures c < 32 ==> Esc(c)[3..5] == [Digit(c / 16, true), Digit(c % 16, true)]
  {
    if c < 32 {
      var digits := Esc(c)[3..5];
      assert digits == [] + [digits[0]] + [digits[1]];
      NoDigits(16);
      LastDigit([], digits[0], 16);
      LastDigit([] + [digits[0]], digits[1], 16);
    }
  }

  /** A text without hexadecimal references is written without any markup, quote or control
      character. */
  lemma {:induction false} NoMarkup(s: bytes)
    requires !HasHex(s)
    ensures forall k :: 0 <= k < |Encoded(s)| ==> Encoded(s)[k] >= 32 && Encoded(s)[k] !in {LT, GT, QUOTE, APOS}
  {
    if s != [] {
      assert !HexAt(s, 0);
      forall i: nat
        ensures !HexAt(s[1..], i)
      {
        assert !HexAt(s, i + 1);
      }
      NoMarkup(s[1..]);
    }
  }
}
