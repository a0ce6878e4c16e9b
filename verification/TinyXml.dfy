/** Escaping and unescaping of text in TinyXML. Reading past the end of the buffer
    gives the zero that ends a C string. */
module TinyXml {
  import opened Bytes

  const QUOTE: byte := 34
  const HASH: byte := 35
  const AMP: byte := 38
  const APOS: byte := 39
  const SEMI: byte := 59
  const LT: byte := 60
  const GT: byte := 62
  const X: byte := 120

  // ------------------------------------------------------------------ writing

  function HexDigit(n: nat): (c: byte)
    requires n < 16
  {
    if n < 10 then 48 + n else 55 + n
  }

  /** The character as EncodeString writes it by itself. */
  function Esc(c: byte): (r: bytes)
    ensures r != [] && 0 !in r
  {
    if c == AMP then [AMP, 97, 109, 112, SEMI]              // &amp;
    else if c == LT then [AMP, 108, 116, SEMI]              // &lt;
    else if c == GT then [AMP, 103, 116, SEMI]              // &gt;
    else if c == QUOTE then [AMP, 113, 117, 111, 116, SEMI] // &quot;
    else if c == APOS then [AMP, 97, 112, 111, 115, SEMI]   // &apos;
    else if c < 32 then [AMP, HASH, X, HexDigit(c / 16), HexDigit(c % 16), SEMI]
    else [c]
  }

  /** A hexadecimal character reference starts here, which is passed through. */
  predicate HexAhead(s: bytes) {
    |s| > 2 && s[0] == AMP && s[1] == HASH && s[2] == X
  }

  /** Where the passing through stops: at a semicolon, or at the last character. */
  function RawEnd(s: bytes, i: nat): (n: nat)
    requires i + 1 < |s|
    ensures i < n < |s| && (s[n] == SEMI || n == |s| - 1)
    ensures forall k :: i < k < n ==> s[k] != SEMI
    decreases |s| - i
  {
    if s[i + 1] == SEMI || i + 1 == |s| - 1 then i + 1 else RawEnd(s, i + 1)
  }

  function Encoded(s: bytes): (r: bytes)
    decreases |s|
  {
    if s == [] then []
    else if HexAhead(s) then s[..RawEnd(s, 0)] + Encoded(s[RawEnd(s, 0)..])
    else Esc(s[0]) + Encoded(s[1..])
  }

  /** EncodeString. */
  method EncodeString(s: bytes) returns (out: bytes)
    ensures out == Encoded(s)
  {
    out := [];
    var i := 0;
    while i < |s|
      invariant 0 <= i <= |s|
      invariant out + Encoded(s[i..]) == Encoded(s)
    {
      if s[i] == AMP && i < |s| - 2 && s[i + 1] == HASH && s[i + 2] == X {
        var raw, end := PassThrough(s, i);
        RawInside(s, i, end);
        Associative(out, raw, Encoded(s[end..]));
        out, i := out + raw, end;
      } else {
        CharInside(s, i);
        Associative(out, Esc(s[i]), Encoded(s[i + 1..]));
        out, i := out + Esc(s[i]), i + 1;
      }
    }
  }

  method PassThrough(s: bytes, start: nat) returns (raw: bytes, i: nat)
    requires start + 1 < |s|
    ensures i == RawEnd(s, start) && raw == s[start..i]
  {
    i, raw := start, [];
    while i < |s| - 1
      invariant start <= i < |s| && raw == s[start..i]
      invariant forall k :: start < k <= i ==> s[k] != SEMI
    {
      raw := raw + [s[i]];
      i := i + 1;
      if s[i] == SEMI {
        break;
      }
    }
  }

  lemma RawInside(s: bytes, i: nat, end: nat)
    requires i + 2 < |s| && end == RawEnd(s, i) && HexAt(s, i)
    ensures Encoded(s[i..]) == s[i..end] + Encoded(s[end..])
  {
    var t := s[i..];
    var n := RawEnd(t, 0);
    assert forall k :: 0 <= k < |t| ==> t[k] == s[i + k];
    assert n == end - i;
    assert t[..n] == s[i..end] && t[n..] == s[end..];
  }

  lemma CharInside(s: bytes, i: nat)
    requires i < |s| && !HexAt(s, i)
    ensures Encoded(s[i..]) == Esc(s[i]) + Encoded(s[i + 1..])
  {
    assert s[i..][1..] == s[i + 1..];
  }

  // ------------------------------------------------------------------ reading

  function At(b: bytes, p: nat): (c: byte) {
    if p < |b| then b[p] else 0
  }

  /** strchr for a semicolon. */
  function FindSemi(b: bytes, p: nat): (q: Option<nat>)
    ensures q.Some? ==> p <= q.value < |b| && b[q.value] == SEMI
    ensures q.Some? ==> forall k :: p <= k < q.value ==> b[k] != 0 && b[k] != SEMI
    decreases |b| - p
  {
    if At(b, p) == 0 then None else if b[p] == SEMI then Some(p) else FindSemi(b, p + 1)
  }

  function DigitOf(c: byte, base: nat): (d: Option<nat>)
    ensures d.Some? ==> d.value < 16
  {
    if 48 <= c <= 57 then Some(c - 48)
    else if base == 16 && 97 <= c <= 102 then Some(c - 87)
    else if base == 16 && 65 <= c <= 70 then Some(c - 55)
    else None
  }

  /** The number whose digits end at q, read backwards to the character `stop`: mult
      is an unsigned int, the sum an unsigned long. */
  function Back(b: bytes, low: nat, q: nat, stop: byte, base: nat, mult: nat, sum: nat): (r: Option<nat>)
    requires low <= q < |b| && b[low] == stop
    decreases q
  {
    if b[q] == stop then Some(sum)
    else
      var d := DigitOf(b[q], base);
      if d.None? then None
      else Back(b, low, q - 1, stop, base, mult * base % 0x1_0000_0000,
                (sum + mult * d.value % 0x1_0000_0000) % 0x1_0000_0000_0000_0000)
  }

  /** ConvertUTF32ToUTF8; nothing for what is out of range. */
  function Utf8Of(u: nat): (r: bytes)
    ensures |r| <= 4
  {
    var v := u / 0x40;
    var w := v / 0x40;
    if u < 0x80 then [u]
    else if u < 0x800 then [0xC0 + v, 0x80 + u % 0x40]
    else if u < 0x1_0000 then [0xE0 + w, 0x80 + v % 0x40, 0x80 + u % 0x40]
    else if u < 0x20_0000 then [0xF0 + w / 0x40, 0x80 + w % 0x40, 0x80 + v % 0x40, 0x80 + u % 0x40]
    else []
  }

  /** What one character in the text stands for, and where the next one starts: None
      where the reader gives up. */
  datatype Char = Char(next: Option<nat>, value: bytes)

  function Numeric(b: bytes, p: nat, low: nat, stop: byte, base: nat, utf8: bool): (r: Char)
    requires p <= low < |b| && b[low] == stop && stop != SEMI
    ensures r.next.Some? ==> r.next.value > p
  {
    var semi := FindSemi(b, low + 1);
    if semi.None? then Char(None, [])
    else
      var u := Back(b, low, semi.value - 1, stop, base, 1, 0);
      if u.None? then Char(None, [])
      else Char(Some(semi.value + 1), if utf8 then Utf8Of(u.value) else [u.value % 256])
  }

  predicate Starts(b: bytes, p: nat, tag: bytes) {
    p + |tag| <= |b| && b[p..p + |tag|] == tag
  }

  /** GetEntity, at an ampersand. */
  function Entity(b: bytes, p: nat, utf8: bool): (r: Char)
    requires p < |b| && b[p] == AMP
    ensures r.next.Some? ==> r.next.value > p
  {
    if At(b, p + 1) == HASH && At(b, p + 2) != 0 then
      if b[p + 2] == X then
        if At(b, p + 3) == 0 then Char(None, []) else Numeric(b, p, p + 2, X, 16, utf8)
      else Numeric(b, p, p + 1, HASH, 10, utf8)
    else if Starts(b, p, Esc(AMP)) then Char(Some(p + 5), [AMP])
    else if Starts(b, p, Esc(LT)) then Char(Some(p + 4), [LT])
    else if Starts(b, p, Esc(GT)) then Char(Some(p + 4), [GT])
    else if Starts(b, p, Esc(QUOTE)) then Char(Some(p + 6), [QUOTE])
    else if Starts(b, p, Esc(APOS)) then Char(Some(p + 6), [APOS])
    else Char(Some(p + 1), [])
  }

  /** utf8ByteTable. */
  function Length(c: byte): (n: nat)
    ensures 1 <= n <= 4
  {
    if 0xC2 <= c <= 0xDF then 2 else if 0xE0 <= c <= 0xEF then 3 else if 0xF0 <= c <= 0xF4 then 4 else 1
  }

  /** The n bytes of a multi-byte character, zeros from where the text ends. */
  function Multi(b: bytes, p: nat, n: nat): (r: bytes)
    ensures |r| == n
    decreases n
  {
    if n == 0 then []
    else if At(b, p) == 0 then [0] + Multi(b, |b|, n - 1)
    else [b[p]] + Multi(b, p + 1, n - 1)
  }

  function GetChar(b: bytes, p: nat, utf8: bool): (r: Char)
    requires p < |b|
    ensures r.next.Some? ==> r.next.value > p
  {
    var n := if utf8 then Length(b[p]) else 1;
    if n > 1 then Char(Some(p + n), Multi(b, p, n))
    else if b[p] == AMP then Entity(b, p, utf8)
    else Char(Some(p + 1), [b[p]])
  }

  /** Text without trimming up to the end tag, and where it ends. */
  function Text(b: bytes, p: nat, tag: bytes, utf8: bool): (r: Char)
    decreases if p < |b| then |b| - p else 0
  {
    if At(b, p) == 0 || Starts(b, p, tag) then Char(Some(p), [])
    else
      var c := GetChar(b, p, utf8);
      if c.next.None? then c
      else
        var rest := Text(b, c.next.value, tag, utf8);
        Char(rest.next, c.value + rest.value)
  }

  // the number that is read backwards

  const WORD: nat := 0x1_0000_0000

  predicate AllDigits(digits: bytes, base: nat) {
    forall k :: 0 <= k < |digits| ==> DigitOf(digits[k], base).Some?
  }

  /** The number written by these digits. */
  function Number(digits: bytes, base: nat): (n: nat)
    requires AllDigits(digits, base)
  {
    if digits == [] then 0
    else Number(digits[..|digits| - 1], base) * base + DigitOf(digits[|digits| - 1], base).value
  }

  ghost predicate ReadsNumber(digits: bytes, base: nat, u: Option<nat>) {
    && (u.Some? <==> AllDigits(digits, base))
    && (u.Some? ==> u.value % WORD == Number(digits, base) % WORD)
    && (u.Some? && Number(digits, base) < WORD ==> u.value == Number(digits, base))
  }

  /** Where the digits that end at q are preceded by the character stop. */
  function StopAt(b: bytes, low: nat, q: nat, stop: byte): (p: nat)
    requires low <= q < |b| && b[low] == stop
    ensures low <= p <= q && b[p] == stop && forall k :: p < k <= q ==> b[k] != stop
    decreases q
  {
    if b[q] == stop then q else StopAt(b, low, q - 1, stop)
  }

  lemma WordTimes(a: nat, d: nat)
    ensures a % WORD * d % WORD == a * d % WORD
  {
    var q, r := a / WORD, a % WORD;
    assert a * d == r * d + WORD * (q * d);
  }

  /** One digit d whose place value is big, of which 32 bits are kept in mult; the digits
      in front of it are worth rest. */
  lemma OneDigit(sum: nat, mult: nat, big: nat, d: nat, base: nat, rest: nat)
    requires mult == big % WORD
    ensures mult * base % WORD == big * base % WORD
    ensures var sum' := (sum + mult * d % WORD) % 0x1_0000_0000_0000_0000;
            && (sum' + rest) % WORD == (sum + rest + big * d) % WORD
            && (sum + rest + big * d < WORD ==> sum' + rest == sum + rest + big * d)
  {
    WordTimes(big, base);
    WordTimes(big, d);
    Carries(sum, mult * d % WORD, big * d, rest);
  }

  lemma PlaceValues(big: nat, v: nat, base: nat, d: nat)
    ensures Times(big, v * base + d) == Times(big * base, v) + big * d
  {
    assert v * base == base * v;
    Products(big, base, v);
  }

  lemma Products(a: nat, b: nat, c: nat)
    ensures a * (b * c) == a * b * c
  {
  }

  lemma Carries(sum: nat, part: nat, term: nat, rest: nat)
    requires part == term % WORD
    ensures var sum' := (sum + part) % 0x1_0000_0000_0000_0000;
            && (sum' + rest) % WORD == (sum + rest + term) % WORD
            && (sum + rest + term < WORD ==> sum' + rest == sum + rest + term)
  {
  }

  lemma LastDigit(front: bytes, c: byte, base: nat)
    ensures AllDigits(front + [c], base) <==> AllDigits(front, base) && DigitOf(c, base).Some?
    ensures AllDigits(front + [c], base) ==>
              Number(front + [c], base) == Number(front, base) * base + DigitOf(c, base).value
  {
    var digits := front + [c];
    assert digits[|front|] == c && digits[..|front|] == front;
    if AllDigits(digits, base) {
      assert forall k :: 0 <= k < |front| ==> front[k] == digits[k];
    }
  }

  function Times(a: nat, b: nat): (p: nat) {
    a * b
  }

  /** u is what is read of the digits with this number, from a sum and a place value
      on. */
  predicate Continues(u: Option<nat>, sum: nat, big: nat, digits: bytes, base: nat) {
    && (u.Some? <==> AllDigits(digits, base))
    && (u.Some? ==>
          var n := sum + Times(big, Number(digits, base)); u.value % WORD == n % WORD && (n < WORD ==> u.value == n))
  }

  lemma ContinuesOn(u: Option<nat>, sum: nat, mult: nat, big: nat, front: bytes, c: byte, base: nat)
    requires mult == big % WORD && DigitOf(c, base).Some?
    requires var sum' := (sum + mult * DigitOf(c, base).value % WORD) % 0x1_0000_0000_0000_0000;
             Continues(u, sum', big * base, front, base)
    ensures Continues(u, sum, big, front + [c], base)
  {
    LastDigit(front, c, base);
    if AllDigits(front, base) {
      var d, v := DigitOf(c, base).value, Number(front, base);
      PlaceValues(big, v, base, d);
      hide Times;
      OneDigit(sum, mult, big, d, base, Times(big * base, v));
    }
  }

  lemma ContinuesNowhere(sum: nat, big: nat, base: nat)
    ensures Continues(Some(sum), sum, big, [], base)
  {
  }

  lemma NoDigit(sum: nat, big: nat, front: bytes, c: byte, base: nat)
    requires DigitOf(c, base).None?
    ensures Continues(None, sum, big, front + [c], base)
  {
    LastDigit(front, c, base);
  }

  lemma {:induction false} BackFrom(b: bytes, low: nat, q: nat, stop: byte, base: nat, mult: nat, sum: nat, big: nat)
    requires low <= q < |b| && b[low] == stop && mult == big % WORD
    ensures Continues(Back(b, low, q, stop, base, mult, sum), sum, big, b[StopAt(b, low, q, stop) + 1..q + 1], base)
    decreases q
  {
    hide Continues, DigitOf;
    if b[q] == stop {
      assert b[q + 1..q + 1] == [];
      ContinuesNowhere(sum, big, base);
    } else {
      var front := b[StopAt(b, low, q, stop) + 1..q];
      assert b[StopAt(b, low, q, stop) + 1..q + 1] == front + [b[q]];
      var d := DigitOf(b[q], base);
      if d.None? {
        NoDigit(sum, big, front, b[q], base);
      } else {
        WordTimes(big, base);
        var sum' := (sum + mult * d.value % WORD) % 0x1_0000_0000_0000_0000;
        BackFrom(b, low, q - 1, stop, base, mult * base % WORD, sum', big * base);
        ContinuesOn(Back(b, low, q, stop, base, mult, sum), sum, mult, big, front, b[q], base);
      }
    }
  }

  lemma BackReads(b: bytes, low: nat, q: nat, stop: byte, base: nat)
    requires low <= q < |b| && b[low] == stop
    ensures ReadsNumber(b[StopAt(b, low, q, stop) + 1..q + 1], base, Back(b, low, q, stop, base, 1, 0))
  {
    BackFrom(b, low, q, stop, base, 1, 0, 1);
  }

  // the loops of the reader

  method StrchrSemi(b: bytes, start: nat) returns (q: Option<nat>)
    ensures q == FindSemi(b, start)
  {
    var p := start;
    while At(b, p) != 0 && At(b, p) != SEMI
      invariant p >= start && FindSemi(b, p) == FindSemi(b, start)
      decreases |b| - p
    {
      p := p + 1;
    }
    q := if At(b, p) == SEMI then Some(p) else None;
  }

  /** What the digits are read as: their number, as long as 32 bits hold it, and the
      same number in 32 bits otherwise; nothing when one of them is no digit. */
  method ReadBack(b: bytes, low: nat, last: nat, stop: byte, base: nat) returns (u: Option<nat>)
    requires low <= last < |b| && b[low] == stop
    ensures u == Back(b, low, last, stop, base, 1, 0)
    ensures ReadsNumber(b[StopAt(b, low, last, stop) + 1..last + 1], base, u)
  {
    BackReads(b, low, last, stop, base);
    var q: nat, mult: nat, ucs: nat := last, 1, 0;
    while b[q] != stop
      invariant low <= q <= last
      invariant Back(b, low, q, stop, base, mult, ucs) == Back(b, low, last, stop, base, 1, 0)
      decreases q
    {
      var d := DigitOf(b[q], base);
      if d.None? {
        return None;
      }
      ucs := (ucs + mult * d.value % 0x1_0000_0000) % 0x1_0000_0000_0000_0000;
      mult := mult * base % 0x1_0000_0000;
      q := q - 1;
    }
    u := Some(ucs);
  }

  /** What ReadText has read when it stands at p. */
  ghost predicate SoFar(b: bytes, start: nat, tag: bytes, utf8: bool, p: Option<nat>, text: bytes) {
    Text(b, start, tag, utf8)
    == if p.None? then Char(None, text)
       else Char(Text(b, p.value, tag, utf8).next, text + Text(b, p.value, tag, utf8).value)
  }

  lemma SoFarStep(b: bytes, start: nat, tag: bytes, utf8: bool, p: nat, text: bytes)
    requires SoFar(b, start, tag, utf8, Some(p), text) && At(b, p) != 0 && !Starts(b, p, tag)
    ensures SoFar(b, start, tag, utf8, GetChar(b, p, utf8).next, text + GetChar(b, p, utf8).value)
  {
    hide Text, GetChar, Starts;
    TextUnfolds(b, p, tag, utf8);
    var c := GetChar(b, p, utf8);
    if c.next.Some? {
      Associative(text, c.value, Text(b, c.next.value, tag, utf8).value);
    }
  }

  lemma TextUnfolds(b: bytes, p: nat, tag: bytes, utf8: bool)
    requires At(b, p) != 0 && !Starts(b, p, tag)
    ensures var c := GetChar(b, p, utf8);
            if c.next.None? then Text(b, p, tag, utf8) == c
            else
              var rest := Text(b, c.next.value, tag, utf8);
              Text(b, p, tag, utf8) == Char(rest.next, c.value + rest.value)
  {
    hide GetChar, Starts;
  }

  /** ReadText without trimming: the text, and the place behind the end tag if there
      is anything there. */
  method ReadText(b: bytes, start: nat, tag: bytes, utf8: bool) returns (text: bytes, next: Option<nat>)
    ensures text == Text(b, start, tag, utf8).value
    ensures next == var e := Text(b, start, tag, utf8).next;
                    if e.Some? && At(b, e.value) != 0 && At(b, e.value + |tag|) != 0 then Some(e.value + |tag|)
                    else None
  {
    var p: Option<nat> := Some(start);
    text := [];
    while p.Some? && At(b, p.value) != 0 && !Starts(b, p.value, tag)
      invariant SoFar(b, start, tag, utf8, p, text)
      decreases p.Some?, if p.Some? then |b| - p.value else 0
    {
      SoFarStep(b, start, tag, utf8, p.value, text);
      var c := GetChar(b, p.value, utf8);
      text := text + c.value;
      p := c.next;
    }
    if p.Some? && At(b, p.value) != 0 {
      p := Some(p.value + |tag|);
    }
    next := if p.Some? && At(b, p.value) != 0 then p else None;
  }

  // --------------------------------------------------------------- round trip

  /** A hexadecimal character reference starts at i. */
  predicate HexAt(s: bytes, i: nat) {
    i + 2 < |s| && s[i] == AMP && s[i + 1] == HASH && s[i + 2] == X
  }

  ghost predicate HasHex(s: bytes) {
    exists i: nat :: HexAt(s, i)
  }

  /** Every character by itself. */
  function Escaped(s: bytes): (r: bytes) {
    if s == [] then [] else Esc(s[0]) + Escaped(s[1..])
  }

  lemma {:induction false} EncodedIsEscaped(s: bytes)
    requires !HasHex(s)
    ensures Encoded(s) == Escaped(s)
  {
    if s != [] {
      assert !HexAt(s, 0);
      forall i: nat
        ensures !HexAt(s[1..], i)
      {
        assert !HexAt(s, i + 1);
      }
      EncodedIsEscaped(s[1..]);
    }
  }

  predicate Plain(c: byte) {
    Esc(c) == [c]
  }

  /** In UTF-8, every character is complete and the bytes behind its first are
      written as they are. */
  predicate Complete(s: bytes)
    decreases |s|
  {
    s == [] || (Length(s[0]) <= |s| && AllPlain(s[1..Length(s[0])]) && Complete(s[Length(s[0])..]))
  }

  predicate AllPlain(s: bytes) {
    forall k :: 0 <= k < |s| ==> Plain(s[k])
  }

  lemma StartsIff(b: bytes, p: nat, tag: bytes)
    ensures Starts(b, p, tag) <==> Sits(b, p, tag)
  {
  }

  /** A character reads back as it was written, one byte at a time. */
  lemma CharReads(b: bytes, p: nat, c: byte, utf8: bool)
    requires Sits(b, p, Esc(c)) && (utf8 ==> Length(c) == 1)
    ensures GetChar(b, p, utf8) == Char(Some(p + |Esc(c)|), [c])
    ensures At(b, p) != 0 && At(b, p) != QUOTE
  {
    var e := Esc(c);
    assert e[0] == b[p];
    if c < 32 {
      ControlReads(b, p, c, utf8);
    } else if c == AMP || c == LT || c == GT || c == QUOTE || c == APOS {
      EntityReads(b, p, c, utf8);
    }
  }

  lemma ControlReads(b: bytes, p: nat, c: byte, utf8: bool)
    requires c < 32 && Sits(b, p, Esc(c)) && b[p] == AMP
    ensures Entity(b, p, utf8) == Char(Some(p + 6), [c])
  {
    var e := Esc(c);
    assert e[1] == b[p + 1] && e[2] == b[p + 2] && e[3] == b[p + 3] && e[4] == b[p + 4] && e[5] == b[p + 5];
    SemiBehindTwo(b, p + 3);
    TwoDigits(b, p + 2, p + 2, c);
  }

  lemma SemiBehindTwo(b: bytes, p: nat)
    requires p + 2 < |b| && b[p] != 0 && b[p] != SEMI && b[p + 1] != 0 && b[p + 1] != SEMI && b[p + 2] == SEMI
    ensures FindSemi(b, p) == Some(p + 2)
  {
    assert FindSemi(b, p + 2) == Some(p + 2);
    assert FindSemi(b, p + 1) == Some(p + 2);
  }

  lemma TwoDigits(b: bytes, low: nat, p: nat, c: byte)
    requires low <= p && p + 2 < |b| && b[low] == X && b[p] == X
    requires c < 32 && b[p + 1] == HexDigit(c / 16) && b[p + 2] == HexDigit(c % 16)
    ensures Back(b, low, p + 2, X, 16, 1, 0) == Some(c as nat)
  {
    assert Back(b, low, p, X, 16, 256, c) == Some(c as nat);
    hide Back;
    HexDigitReads(c / 16);
    HexDigitReads(c % 16);
    BackOne(b, low, p + 2, 16, 1, 0, c % 16, 16, c % 16);
    BackOne(b, low, p + 1, 16, 16, c % 16, c / 16, 256, c);
  }

  lemma HexDigitReads(d: nat)
    requires d < 16
    ensures DigitOf(HexDigit(d), 16) == Some(d) && HexDigit(d) != X
  {
  }

  lemma BackOne(b: bytes, low: nat, q: nat, base: nat, mult: nat, sum: nat, d: nat, more: nat, next: nat)
    requires low < q < |b| && b[low] == X && b[q] != X && DigitOf(b[q], base) == Some(d)
    requires more == mult * base % 0x1_0000_0000
    requires next == (sum + mult * d % 0x1_0000_0000) % 0x1_0000_0000_0000_0000
    ensures Back(b, low, q, X, base, mult, sum) == Back(b, low, q - 1, X, base, more, next)
  {
  }

  lemma EntityReads(b: bytes, p: nat, c: byte, utf8: bool)
    requires c == AMP || c == LT || c == GT || c == QUOTE || c == APOS
    requires Sits(b, p, Esc(c)) && b[p] == AMP
    ensures Entity(b, p, utf8) == Char(Some(p + |Esc(c)|), [c])
  {
    var e := Esc(c);
    assert e[0] == b[p] && e[1] == b[p + 1] && e[2] == b[p + 2];
    StartsIff(b, p, e);
    if c != AMP {
      NotStarts(b, p, Esc(AMP), if c == APOS then 2 else 1);
    }
    if c != LT {
      NotStarts(b, p, Esc(LT), 1);
    }
    if c != GT {
      NotStarts(b, p, Esc(GT), 1);
    }
    if c != QUOTE {
      NotStarts(b, p, Esc(QUOTE), 1);
    }
  }

  lemma NotStarts(b: bytes, p: nat, tag: bytes, k: nat)
    requires k < |tag| && p + k < |b| && b[p + k] != tag[k]
    ensures !Starts(b, p, tag)
  {
    StartsIff(b, p, tag);
  }

  lemma SitsParts(b: bytes, p: nat, first: bytes, rest: bytes)
    requires Sits(b, p, first + rest)
    ensures Sits(b, p, first) && Sits(b, p + |first|, rest)
  {
    forall k | 0 <= k < |first|
      ensures b[p + k] == first[k]
    {
      assert (first + rest)[k] == first[k];
    }
    forall k | 0 <= k < |rest|
      ensures b[p + |first| + k] == rest[k]
    {
      assert (first + rest)[|first| + k] == rest[k];
    }
  }

  lemma Associative(a: bytes, b: bytes, c: bytes)
    ensures a + (b + c) == a + b + c
  {
  }

  lemma {:induction false} EscapedAppends(run: bytes, rest: bytes)
    ensures Escaped(run + rest) == Escaped(run) + Escaped(rest)
    decreases |run|
  {
    if run == [] {
      assert run + rest == rest;
    } else {
      assert (run + rest)[1..] == run[1..] + rest;
      EscapedAppends(run[1..], rest);
      Associative(Esc(run[0]), Escaped(run[1..]), Escaped(rest));
    }
  }

  lemma {:induction false} PlainEscaped(run: bytes)
    requires AllPlain(run)
    ensures Escaped(run) == run
    decreases |run|
  {
    if run != [] {
      PlainEscaped(run[1..]);
      assert Plain(run[0]) && [run[0]] + run[1..] == run;
    }
  }

  lemma {:induction false} MultiReads(b: bytes, p: nat, run: bytes)
    requires Sits(b, p, run) && AllPlain(run)
    ensures Multi(b, p, |run|) == run
    decreases |run|
  {
    if run != [] {
      assert b[p] == run[0];
      assert [run[0]] + run[1..] == run;
      SitsParts(b, p, [run[0]], run[1..]);
      MultiReads(b, p + 1, run[1..]);
    }
  }

  lemma TextStep(b: bytes, p: nat, utf8: bool, next: nat, value: bytes, end: nat, rest: bytes)
    requires At(b, p) != 0 && At(b, p) != QUOTE && GetChar(b, p, utf8) == Char(Some(next), value)
    requires Text(b, next, [QUOTE], utf8) == Char(Some(end), rest)
    ensures Text(b, p, [QUOTE], utf8) == Char(Some(end), value + rest)
  {
    NotStarts(b, p, [QUOTE], 0);
  }

  lemma RunReads(b: bytes, p: nat, run: bytes)
    requires Sits(b, p, run) && AllPlain(run) && run != [] && Length(run[0]) == |run| > 1
    ensures GetChar(b, p, true) == Char(Some(p + |run|), run) && At(b, p) != 0 && At(b, p) != QUOTE
  {
    MultiReads(b, p, run);
    assert b[p] == run[0];
  }

  lemma LeadIsPlain(c: byte)
    ensures Length(c) > 1 ==> Plain(c)
  {
  }

  /** One character, or in UTF-8 the bytes that belong together. */
  predicate IsRun(run: bytes, utf8: bool) {
    && run != []
    && |run| == (if utf8 then Length(run[0]) else 1)
    && (|run| > 1 ==> AllPlain(run))
  }

  lemma FirstRun(s: bytes, utf8: bool) returns (run: bytes, rest: bytes)
    requires s != [] && (utf8 ==> Complete(s))
    ensures s == run + rest && IsRun(run, utf8) && (utf8 ==> Complete(rest))
  {
    var n := if utf8 then Length(s[0]) else 1;
    run, rest := s[..n], s[n..];
    if n > 1 {
      LeadIsPlain(s[0]);
      assert run == [s[0]] + s[1..n];
    }
  }

  /** How a run is written. */
  function Written(run: bytes): (w: bytes)
    requires run != []
  {
    if |run| > 1 then run else Esc(run[0])
  }

  lemma RunWritten(run: bytes, rest: bytes, utf8: bool)
    requires IsRun(run, utf8)
    ensures Escaped(run + rest) == Written(run) + Escaped(rest)
  {
    if |run| > 1 {
      EscapedAppends(run, rest);
      PlainEscaped(run);
    } else {
      assert (run + rest)[1..] == rest;
    }
  }

  lemma WrittenReads(b: bytes, p: nat, run: bytes, utf8: bool)
    requires IsRun(run, utf8) && Sits(b, p, Written(run))
    ensures At(b, p) != 0 && At(b, p) != QUOTE
    ensures GetChar(b, p, utf8) == Char(Some(p + |Written(run)|), run)
  {
    if |run| > 1 {
      RunReads(b, p, run);
    } else {
      CharReads(b, p, run[0], utf8);
      assert run == [run[0]];
    }
  }

  lemma SitsSplit(b: bytes, p: nat, first: bytes, rest: bytes)
    requires Sits(b, p, first + rest + [QUOTE])
    ensures Sits(b, p, first) && Sits(b, p + |first|, rest + [QUOTE])
  {
    assert first + rest + [QUOTE] == first + (rest + [QUOTE]);
    SitsParts(b, p, first, rest + [QUOTE]);
  }

  lemma NothingReads(b: bytes, p: nat, utf8: bool)
    requires Sits(b, p, [QUOTE])
    ensures Text(b, p, [QUOTE], utf8) == Char(Some(p), [])
  {
    assert [QUOTE][0] == b[p];
    StartsIff(b, p, [QUOTE]);
  }

  lemma FirstSplit(b: bytes, p: nat, s: bytes, utf8: bool) returns (run: bytes, rest: bytes)
    requires s != [] && (utf8 ==> Complete(s)) && Sits(b, p, Escaped(s) + [QUOTE])
    ensures s == run + rest && IsRun(run, utf8) && (utf8 ==> Complete(rest))
    ensures Sits(b, p, Written(run)) && Sits(b, p + |Written(run)|, Escaped(rest) + [QUOTE])
    ensures |Escaped(s)| == |Written(run)| + |Escaped(rest)|
  {
    hide Sits, Escaped, Esc, Complete, Written;
    run, rest := FirstRun(s, utf8);
    RunWritten(run, rest, utf8);
    SitsSplit(b, p, Written(run), Escaped(rest));
  }

  lemma RunThenRest(b: bytes, p: nat, run: bytes, utf8: bool, next: nat, end: nat, rest: bytes)
    requires IsRun(run, utf8) && Sits(b, p, Written(run)) && next == p + |Written(run)|
    requires Text(b, next, [QUOTE], utf8) == Char(Some(end), rest)
    ensures Text(b, p, [QUOTE], utf8) == Char(Some(end), run + rest)
  {
    WrittenReads(b, p, run, utf8);
    TextStep(b, p, utf8, next, run, end, rest);
  }

  /** Reading what was written, up to a closing quote, gives the text back. */
  lemma {:induction false} TextReads(b: bytes, p: nat, s: bytes, end: nat, utf8: bool)
    requires (utf8 ==> Complete(s)) && Sits(b, p, Escaped(s) + [QUOTE]) && end == p + |Escaped(s)|
    ensures Text(b, p, [QUOTE], utf8) == Char(Some(end), s)
    decreases |s|
  {
    if s == [] {
      assert Escaped(s) + [QUOTE] == [QUOTE];
      NothingReads(b, p, utf8);
    } else {
      hide *;
      var run, rest := FirstSplit(b, p, s, utf8);
      var next := p + |Written(run)|;
      TextReads(b, next, rest, end, utf8);
      RunThenRest(b, p, run, utf8, next, end, rest);
    }
  }

  /** What EncodeString writes between quotes is read back, whatever follows. */
  lemma RoundTrip(s: bytes, rest: bytes, utf8: bool)
    requires !HasHex(s) && (utf8 ==> Complete(s))
    ensures Text(Encoded(s) + [QUOTE] + rest, 0, [QUOTE], utf8) == Char(Some(|Encoded(s)|), s)
  {
    EncodedIsEscaped(s);
    var b := Encoded(s) + [QUOTE] + rest;
    assert Sits(b, 0, Encoded(s) + [QUOTE]);
    TextReads(b, 0, s, |Encoded(s)|, utf8);
  }

  // ----------------------------------------------- references in the text itself

  lemma TextGoesOn(b: bytes, p: nat, utf8: bool, c: Char, t: nat, rest: nat)
    requires At(b, p) != 0 && At(b, p) != QUOTE
    requires c == GetChar(b, p, utf8) && t == |Text(b, p, [QUOTE], utf8).value|
    requires c.next.Some? ==> rest == |Text(b, c.next.value, [QUOTE], utf8).value|
    ensures t == |c.value| + (if c.next.Some? then rest else 0)
  {
    NotStarts(b, p, [QUOTE], 0);
  }

  /** b from p on is what EncodeString makes of s, a quote, and the end. */
  ghost predicate Ends(b: bytes, p: nat, s: bytes) {
    Sits(b, p, Encoded(s) + [QUOTE]) && |b| == p + |Encoded(s)| + 1
  }

  lemma EscSemi(c: byte)
    ensures forall k :: 0 <= k < |Esc(c)| - 1 ==> Esc(c)[k] != SEMI
    ensures |Esc(c)| > 1 ==> Esc(c)[|Esc(c)| - 1] == SEMI
    ensures |Esc(c)| == 1 ==> Esc(c) == [c]
  {
  }

  /** What a passed-through reference is followed by: its semicolon, or the last
      character of the text. */
  lemma AfterRaw(b: bytes, p: nat, s: bytes, n: nat)
    requires HexAhead(s) && Ends(b, p, s) && n == RawEnd(s, 0)
    ensures n >= 2 && Ends(b, p + n, s[n..])
    ensures At(b, p) == AMP && At(b, p + 1) == HASH && At(b, p + 2) == X
    ensures forall k :: 0 <= k < n ==> b[p + k] == s[k]
  {
    var raw, more := s[..n], Encoded(s[n..]);
    assert Encoded(s) + [QUOTE] == raw + (more + [QUOTE]);
    SitsParts(b, p, raw, more + [QUOTE]);
    forall k | 0 <= k < n
      ensures b[p + k] == s[k]
    {
      assert raw[k] == s[k];
    }
    if n == 2 {
      assert s[2..] == [X] && Encoded([X]) == [X];
      assert (more + [QUOTE])[0] == X == b[p + 2];
    }
  }

  /** What is left behind the semicolon that ends such a reference. */
  lemma BehindSemi(b: bytes, p: nat, s: bytes, n: nat)
    requires HexAhead(s) && Ends(b, p, s) && n == RawEnd(s, 0)
    ensures At(b, p) == AMP && At(b, p + 1) == HASH && At(b, p + 2) == X
    ensures s[n] == SEMI ==> n >= 3 && Ends(b, p + n + 1, s[n + 1..])
    ensures FindSemi(b, p + 3).Some? ==>
              if s[n] == SEMI then FindSemi(b, p + 3).value == p + n
              else Sits(b, FindSemi(b, p + 3).value + 1, [QUOTE]) && SmallNumber(b, p + 2, FindSemi(b, p + 3).value)
  {
    AfterRaw(b, p, s, n);
    if s[n] == SEMI {
      SemiNext(b, p, s, n);
    } else {
      LastNext(b, p, s, n);
    }
  }

  /** The digits from semi back give nothing or an ASCII character. */
  ghost predicate SmallNumber(b: bytes, low: nat, semi: nat) {
    && low < semi < |b| && b[low] == X
    && var u := Back(b, low, semi - 1, X, 16, 1, 0); u.Some? ==> u.value < 0x80
  }

  function Decoded(u: nat, utf8: bool): (r: bytes)
    ensures |r| <= 4 && (u < 0x80 || !utf8 ==> |r| == 1)
  {
    if utf8 then Utf8Of(u) else [u % 256]
  }

  /** From s, of which n bytes were written before `rest` bytes are read, t are read in
      all: fewer than written, or as many and no reference was passed through. */
  ghost predicate Gains(t: nat, rest: nat, s: bytes, n: nat) {
    1 <= n <= |s| && (t < n + rest || (t == n + rest && (HasHex(s) ==> HasHex(s[n..]))))
  }

  /** A reference read where one was passed through swallows more than it gives. */
  lemma RawSplits(b: bytes, p: nat, s: bytes, utf8: bool) returns (n: nat, next: nat)
    requires HexAhead(s) && Ends(b, p, s) && (utf8 ==> WellFormed(s))
    ensures next <= |b| && Gains(|Text(b, p, [QUOTE], utf8).value|, |Text(b, next, [QUOTE], utf8).value|, s, n)
    ensures Ends(b, next, s[n..]) && (utf8 ==> WellFormed(s[n..]))
  {
    var semi;
    n, next, semi := RawBehind(b, p, s, utf8);
    RawLength(b, p, s, n, next, semi, |Text(b, p, [QUOTE], utf8).value|, |Text(b, next, [QUOTE], utf8).value|, utf8);
  }

  lemma RawBehind(b: bytes, p: nat, s: bytes, utf8: bool) returns (n: nat, next: nat, semi: Option<nat>)
    requires HexAhead(s) && Ends(b, p, s) && (utf8 ==> WellFormed(s))
    ensures 1 <= n <= |s| && next <= |b| && Ends(b, next, s[n..]) && (utf8 ==> WellFormed(s[n..]))
    ensures At(b, p) == AMP && At(b, p + 1) == HASH && At(b, p + 2) == X && semi == FindSemi(b, p + 3)
    ensures n >= 3 && (semi.Some? ==> Swallowed(b, p, semi.value, n, next))
  {
    hide Encoded, Sits, FindSemi;
    var end := RawEnd(s, 0);
    BehindSemi(b, p, s, end);
    semi := FindSemi(b, p + 3);
    if s[end] == SEMI {
      n, next := end + 1, p + end + 1;
      assert end == 3 ==> Back(b, p + 2, p + 2, X, 16, 1, 0) == Some(0);
      if utf8 {
        WellFormedBehind(s, end);
      }
    } else {
      n, next := |s|, |b| - 1;
      LastQuote(b, p, s);
    }
  }

  /** The semicolon the reader finds: next is behind it, or the closing quote is, and a
      small number in front of it takes no more than n - 1 bytes. */
  ghost predicate Swallowed(b: bytes, p: nat, semi: nat, n: nat, next: nat) {
    && (next == semi + 1 || Sits(b, semi + 1, [QUOTE]))
    && (n < 5 ==> SmallNumber(b, p + 2, semi))
  }

  lemma RawLength(b: bytes, p: nat, s: bytes, n: nat, next: nat, semi: Option<nat>, t: nat, rest: nat, utf8: bool)
    requires 3 <= n <= |s| && At(b, p) == AMP && At(b, p + 1) == HASH && At(b, p + 2) == X
    requires semi == FindSemi(b, p + 3) && (semi.Some? ==> Swallowed(b, p, semi.value, n, next))
    requires t == |Text(b, p, [QUOTE], utf8).value| && rest == |Text(b, next, [QUOTE], utf8).value|
    ensures Gains(t, rest, s, n)
  {
    var after := ReadBehind(b, semi, next, rest, utf8);
    HexGives(b, p, semi, t, after, n - 1, utf8);
  }

  lemma ReadBehind(b: bytes, semi: Option<nat>, next: nat, rest: nat, utf8: bool) returns (after: nat)
    requires semi.Some? ==> next == semi.value + 1 || Sits(b, semi.value + 1, [QUOTE])
    requires rest == |Text(b, next, [QUOTE], utf8).value|
    ensures after <= rest && (semi.Some? ==> after == |Text(b, semi.value + 1, [QUOTE], utf8).value|)
  {
    after := if semi.Some? then |Text(b, semi.value + 1, [QUOTE], utf8).value| else 0;
    if semi.Some? && next != semi.value + 1 {
      NothingReads(b, semi.value + 1, utf8);
    }
  }

  lemma LastQuote(b: bytes, p: nat, s: bytes)
    requires Ends(b, p, s)
    ensures Sits(b, |b| - 1, [QUOTE]) && s[|s|..] == [] && Ends(b, |b| - 1, s[|s|..])
  {
    SitsParts(b, p, Encoded(s), [QUOTE]);
    assert Encoded([]) + [QUOTE] == [QUOTE];
  }

  lemma HexGives(b: bytes, p: nat, semi: Option<nat>, t: nat, rest: nat, size: nat, utf8: bool)
    requires At(b, p) == AMP && At(b, p + 1) == HASH && At(b, p + 2) == X && semi == FindSemi(b, p + 3)
    requires t == |Text(b, p, [QUOTE], utf8).value|
    requires semi.Some? ==> rest == |Text(b, semi.value + 1, [QUOTE], utf8).value|
    requires semi.Some? && size < 4 ==> SmallNumber(b, p + 2, semi.value) && size >= 1
    ensures t <= size + rest
  {
    hide Text, GetChar, FindSemi, Back;
    HexChar(b, p, utf8);
    TextGoesOn(b, p, utf8, GetChar(b, p, utf8), t, rest);
  }

  lemma HexChar(b: bytes, p: nat, utf8: bool)
    requires At(b, p) == AMP && At(b, p + 1) == HASH && At(b, p + 2) == X
    ensures var c, semi := GetChar(b, p, utf8), FindSemi(b, p + 3);
            if c.next.Some?
            then semi.Some? && c.next.value == semi.value + 1
                 && Back(b, p + 2, semi.value - 1, X, 16, 1, 0).Some?
                 && c.value == Decoded(Back(b, p + 2, semi.value - 1, X, 16, 1, 0).value, utf8)
            else c.value == []
  {
  }

  /** t bytes were read where s had been written. */
  ghost predicate Shrinks(t: nat, s: bytes) {
    t <= |s| && (HasHex(s) ==> t < |s|)
  }

  /** Read to the end of the buffer, the text is never longer than it was, and
      shorter when a reference was passed through. */
  lemma {:induction false} NeverLonger(b: bytes, p: nat, s: bytes, utf8: bool)
    requires Ends(b, p, s) && (utf8 ==> WellFormed(s))
    ensures Shrinks(|Text(b, p, [QUOTE], utf8).value|, s)
    decreases |s|
  {
    if s == [] {
      EmptyReads(b, p, utf8);
    } else {
      var n, next;
      if HexAhead(s) {
        n, next := RawSplits(b, p, s, utf8);
      } else {
        n, next := RunSplits(b, p, s, utf8);
      }
      NeverLonger(b, next, s[n..], utf8);
      ShrinksOn(|Text(b, p, [QUOTE], utf8).value|, |Text(b, next, [QUOTE], utf8).value|, s, n);
    }
  }

  lemma ShrinksOn(t: nat, rest: nat, s: bytes, n: nat)
    requires Gains(t, rest, s, n) && Shrinks(rest, s[n..])
    ensures Shrinks(t, s)
  {
  }

  lemma EmptyReads(b: bytes, p: nat, utf8: bool)
    requires Ends(b, p, [])
    ensures Shrinks(|Text(b, p, [QUOTE], utf8).value|, [])
  {
    assert Encoded([]) + [QUOTE] == [QUOTE];
    NothingReads(b, p, utf8);
  }

  lemma RunSplits(b: bytes, p: nat, s: bytes, utf8: bool) returns (n: nat, next: nat)
    requires s != [] && !HexAhead(s) && Ends(b, p, s) && (utf8 ==> WellFormed(s))
    ensures next <= |b| && Gains(|Text(b, p, [QUOTE], utf8).value|, |Text(b, next, [QUOTE], utf8).value|, s, n)
    ensures Ends(b, next, s[n..]) && (utf8 ==> WellFormed(s[n..]))
  {
    hide *;
    n, next := RunBehind(b, p, s, utf8);
    RunLength(b, p, s, n, utf8, |Text(b, p, [QUOTE], utf8).value|, |Text(b, next, [QUOTE], utf8).value|);
  }

  lemma RunBehind(b: bytes, p: nat, s: bytes, utf8: bool) returns (n: nat, next: nat)
    requires s != [] && !HexAhead(s) && Ends(b, p, s) && (utf8 ==> WellFormed(s))
    ensures IsFirst(s, n, utf8) && Sits(b, p, Written(s[..n])) && next == p + |Written(s[..n])| <= |b|
    ensures Ends(b, next, s[n..]) && (utf8 ==> WellFormed(s[n..]))
  {
    n := if utf8 then Length(s[0]) else 1;
    FirstIs(s, n, utf8);
    RunGives(b, p, s, n, utf8);
    next := p + |Written(s[..n])|;
  }

  lemma RunLength(b: bytes, p: nat, s: bytes, n: nat, utf8: bool, t: nat, rest: nat)
    requires IsFirst(s, n, utf8) && !HexAhead(s) && Sits(b, p, Written(s[..n]))
    requires t == |Text(b, p, [QUOTE], utf8).value|
    requires rest == |Text(b, p + |Written(s[..n])|, [QUOTE], utf8).value|
    ensures Gains(t, rest, s, n)
  {
    RunCounts(b, p, s[..n], utf8, t, rest);
    HexBehind(s, n);
  }

  lemma RunCounts(b: bytes, p: nat, run: bytes, utf8: bool, t: nat, rest: nat)
    requires IsRun(run, utf8) && Sits(b, p, Written(run))
    requires t == |Text(b, p, [QUOTE], utf8).value|
    requires rest == |Text(b, p + |Written(run)|, [QUOTE], utf8).value|
    ensures t == |run| + rest
  {
    hide Text, GetChar, Sits, Written;
    WrittenReads(b, p, run, utf8);
    TextGoesOn(b, p, utf8, GetChar(b, p, utf8), t, rest);
  }

  lemma HexBehind(s: bytes, n: nat)
    requires 1 <= n <= |s| && !HexAhead(s) && (n > 1 ==> forall k :: 0 <= k < n ==> Plain(s[k]))
    ensures HasHex(s) ==> HasHex(s[n..])
  {
    if HasHex(s) {
      var i: nat :| HexAt(s, i);
      assert i >= n && HexAt(s[n..], i - n);
    }
  }

  /** The first character where no reference starts. */
  lemma RunGives(b: bytes, p: nat, s: bytes, n: nat, utf8: bool)
    requires IsFirst(s, n, utf8) && !HexAhead(s) && Ends(b, p, s)
    ensures Sits(b, p, Written(s[..n])) && Ends(b, p + |Written(s[..n])|, s[n..])
  {
    hide Encoded, Written, Sits, IsRun;
    RunEncoded(s, n);
    EndsBehind(b, p, Encoded(s), Written(s[..n]), Encoded(s[n..]));
  }

  lemma EndsBehind(b: bytes, p: nat, whole: bytes, first: bytes, rest: bytes)
    requires whole == first + rest && Sits(b, p, whole + [QUOTE]) && |b| == p + |whole| + 1
    ensures Sits(b, p, first) && Sits(b, p + |first|, rest + [QUOTE]) && |b| == p + |first| + |rest| + 1
  {
    SitsSplit(b, p, first, rest);
  }

  ghost predicate IsFirst(s: bytes, n: nat, utf8: bool) {
    1 <= n <= |s| && IsRun(s[..n], utf8) && (n > 1 ==> forall k :: 0 <= k < n ==> Plain(s[k]))
  }

  lemma FirstIs(s: bytes, n: nat, utf8: bool)
    requires s != [] && (utf8 ==> WellFormed(s)) && n == if utf8 then Length(s[0]) else 1
    ensures IsFirst(s, n, utf8) && (utf8 ==> WellFormed(s[n..]))
  {
    if n > 1 {
      LeadIsPlain(s[0]);
      assert forall k :: 1 <= k < n ==> 0x80 <= s[k] < 0xC0;
    }
  }

  lemma RunEncoded(s: bytes, n: nat)
    requires 1 <= n <= |s| && !HexAhead(s) && (n > 1 ==> forall k :: 0 <= k < n ==> Plain(s[k]))
    ensures Encoded(s) == Written(s[..n]) + Encoded(s[n..])
  {
    if n > 1 {
      PlainEncoded(s, n);
    }
  }

  lemma {:induction false} PlainEncoded(s: bytes, n: nat)
    requires n <= |s| && forall k :: 0 <= k < n ==> Plain(s[k])
    ensures Encoded(s) == s[..n] + Encoded(s[n..])
    decreases n
  {
    if n == 0 {
      assert s[0..] == s;
    } else {
      var rest := s[1..];
      PlainEncoded(rest, n - 1);
      assert Plain(s[0]) && Encoded(s) == [s[0]] + Encoded(rest);
      assert rest[n - 1..] == s[n..] && [s[0]] + rest[..n - 1] == s[..n];
      Associative([s[0]], rest[..n - 1], Encoded(s[n..]));
    }
  }

  ghost predicate ReadsBack(s: bytes, utf8: bool) {
    forall rest: bytes ::
      Text(Encoded(s) + [QUOTE] + rest, 0, [QUOTE], utf8) == Char(Some(|Encoded(s)|), s)
  }

  /** A text (any bytes, or well-formed UTF-8 where it is read as such) is written and
      read back whatever follows it exactly when no hexadecimal character reference
      starts in it. */
  lemma ReadsBackIff(s: bytes, utf8: bool)
    requires utf8 ==> WellFormed(s)
    ensures ReadsBack(s, utf8) <==> !HasHex(s)
  {
    if HasHex(s) {
      var b := Encoded(s) + [QUOTE] + [];
      assert b == Encoded(s) + [QUOTE];
      NeverLonger(b, 0, s, utf8);
      assert Text(b, 0, [QUOTE], utf8).value != s;
    } else {
      if utf8 {
        WellFormedIsComplete(s);
      }
      forall rest: bytes
        ensures Text(Encoded(s) + [QUOTE] + rest, 0, [QUOTE], utf8) == Char(Some(|Encoded(s)|), s)
      {
        RoundTrip(s, rest, utf8);
      }
    }
  }

  lemma SemiNext(b: bytes, p: nat, s: bytes, n: nat)
    requires n < |s| && s[n] == SEMI && n >= 3 && Ends(b, p + n, s[n..])
    requires forall k :: 2 < k < n ==> s[k] != SEMI
    requires forall k :: 0 <= k < n ==> b[p + k] == s[k]
    ensures b[p + n] == SEMI
    ensures FindSemi(b, p + 3).Some? ==> FindSemi(b, p + 3).value == p + n
    ensures Ends(b, p + n + 1, s[n + 1..])
  {
    var t := s[n..];
    assert t[0] == SEMI && t[1..] == s[n + 1..] && Encoded(t) == [SEMI] + Encoded(t[1..]);
    assert Encoded(t) + [QUOTE] == [SEMI] + (Encoded(t[1..]) + [QUOTE]);
    SitsParts(b, p + n, [SEMI], Encoded(t[1..]) + [QUOTE]);
    assert [SEMI][0] == b[p + n];
    forall k | p + 3 <= k < p + n
      ensures b[k] != SEMI
    {
      assert b[p + (k - p)] == s[k - p];
    }
  }

  lemma LastNext(b: bytes, p: nat, s: bytes, n: nat)
    requires n + 1 == |s| && s[n] != SEMI && n >= 2 && Ends(b, p + n, s[n..])
    requires forall k :: 2 < k < n ==> s[k] != SEMI
    requires forall k :: 0 <= k < n ==> b[p + k] == s[k]
    requires At(b, p + 2) == X
    ensures FindSemi(b, p + 3).Some? ==>
              Sits(b, FindSemi(b, p + 3).value + 1, [QUOTE]) && SmallNumber(b, p + 2, FindSemi(b, p + 3).value)
  {
    var e := Esc(s[n]);
    assert s[n..] == [s[n]] && Encoded([s[n]]) == e + Encoded([]) == e;
    EscSemi(s[n]);
    SitsParts(b, p + n, e, [QUOTE]);
    assert [QUOTE][0] == b[p + n + |e|];
    forall k | p + 3 <= k < |b| && k != p + n + |e| - 1
      ensures b[k] != SEMI
    {
      if k < p + n {
        assert b[p + (k - p)] == s[k - p];
      } else if k < p + n + |e| {
        assert e[k - p - n] == b[p + n + (k - p - n)];
      }
    }
    assert e[|e| - 1] == b[p + n + |e| - 1];
    if FindSemi(b, p + 3).Some? {
      LastGives(b, p + 2, p + n, s[n]);
    }
  }

  /** An escape read from its semicolon back, as if it ended a number. */
  lemma LastGives(b: bytes, low: nat, q: nat, c: byte)
    requires low <= q && Sits(b, q, Esc(c)) && |Esc(c)| > 1 && b[low] == X
    ensures SmallNumber(b, low, q + |Esc(c)| - 1)
  {
    var e := Esc(c);
    assert e[|e| - 2] == b[q + |e| - 2];
    if c < 32 {
      assert e[2] == b[q + 2] && e[3] == b[q + 3] && e[4] == b[q + 4];
      TwoDigits(b, low, q + 2, c);
    }
  }

  // -------------------------------------------------------------------- UTF-8

  /** Every character is a lead byte and the continuation bytes it asks for. */
  predicate WellFormed(s: bytes)
    decreases |s|
  {
    s == []
    || (var n := Length(s[0]);
        && n <= |s| && (n == 1 ==> s[0] < 0x80)
        && (forall k :: 1 <= k < n ==> 0x80 <= s[k] < 0xC0)
        && WellFormed(s[n..]))
  }

  lemma {:induction false} WellFormedIsComplete(s: bytes)
    requires WellFormed(s)
    ensures Complete(s)
    decreases |s|
  {
    if s != [] {
      var n := Length(s[0]);
      forall k | 0 <= k < n - 1
        ensures Plain(s[1..n][k])
      {
        assert 0x80 <= s[k + 1] < 0xC0;
      }
      WellFormedIsComplete(s[n..]);
    }
  }

  /** The code point of one character. */
  function CodePoint(s: bytes): (u: int)
    requires s != [] && |s| == Length(s[0])
  {
    if |s| == 1 then s[0]
    else if |s| == 2 then (s[0] as int - 0xC0) * 0x40 + (s[1] as int - 0x80)
    else if |s| == 3 then (s[0] as int - 0xE0) * 0x1000 + (s[1] as int - 0x80) * 0x40 + (s[2] as int - 0x80)
    else (s[0] as int - 0xF0) * 0x4_0000 + (s[1] as int - 0x80) * 0x1000 + (s[2] as int - 0x80) * 0x40
         + (s[3] as int - 0x80)
  }

  lemma {:induction false} WellFormedBehind(s: bytes, n: nat)
    requires WellFormed(s) && n < |s| && s[n] < 0x80
    ensures WellFormed(s[n + 1..])
    decreases n
  {
    var m := Length(s[0]);
    if n >= m {
      assert s[m..][n - m] == s[n] && s[m..][n - m + 1..] == s[n + 1..];
      WellFormedBehind(s[m..], n - m);
    }
  }

  /** ConvertUTF32ToUTF8 writes one well-formed character, for every code point there
      is. */
  lemma Utf8OfReads(u: nat)
    requires u <= 0x10_FFFF
    ensures var r := Utf8Of(u); r != [] && |r| == Length(r[0]) && WellFormed(r) && CodePoint(r) == u
  {
    var r := Utf8Of(u);
    assert r[|r|..] == [];
    assert WellFormed(r[|r|..]);
  }

  /** Behind the last code point it goes on with four bytes while they have room for the
      21 bits, and writes nothing from there on. */
  lemma Utf8OfBeyond(u: nat)
    requires u > 0x10_FFFF
    ensures u >= 0x20_0000 ==> Utf8Of(u) == []
    ensures u < 0x20_0000 ==>
              var r := Utf8Of(u);
              && |r| == 4 && 0xF4 <= r[0] < 0xF8 && (forall k :: 1 <= k < 4 ==> 0x80 <= r[k] < 0xC0)
              && u == (r[0] as int - 0xF0) * 0x4_0000 + (r[1] as int - 0x80) * 0x1000 + (r[2] as int - 0x80) * 0x40
                      + (r[3] as int - 0x80)
  {
    var v := u / 0x40;
    var w := v / 0x40;
    assert u == 0x40 * v + u % 0x40 && v == 0x40 * w + v % 0x40;
  }
}
