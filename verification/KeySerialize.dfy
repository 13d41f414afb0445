/** Keys: fields as text, numbers in hexadecimal of a fixed number of digits, an
    optional border behind every field. */
module KeySerialize {
  import opened Arithmetic
  import opened Common
  import opened Records

  const BLANK: Byte := 32
  const ZERO: Byte := 48

  function HexDigit(d: nat): Byte
    requires d < 16
  {
    if d < 10 then 48 + d else 87 + d
  }

  function Fill(pad: Byte, n: nat): (s: seq<Byte>)
    ensures |s| == n
  {
    if n == 0 then [] else Fill(pad, n - 1) + [pad]
  }

  /** The digits of v, padded in front to w characters; all padding for zero. */
  function Padded(v: nat, w: nat, pad: Byte): (s: seq<Byte>)
    ensures |s| == w
    decreases w
  {
    if w == 0 then [] else if v == 0 then Fill(pad, w) else Padded(v / 16, w - 1, pad) + [HexDigit(v % 16)]
  }

  /** printf's %0wx and %wx: at least one digit. */
  function Hex(v: nat, w: nat, pad: Byte): (s: seq<Byte>)
    requires w > 0
    ensures |s| == w
  {
    Padded(v / 16, w - 1, pad) + [HexDigit(v % 16)]
  }

  // --------------------------------------------------------------- the encoding

  /** What the key keeps of an integer: the 64-bit conversion prints an int. */
  function Kept(v: nat, w: nat): nat {
    if w == 8 then v % TWO32 else v
  }

  function IntKey(v: nat, w: nat): (s: seq<Byte>)
    requires ProperWidth(w)
    ensures |s| == 2 * w
  {
    Hex(Kept(v, w), 2 * w, if w == 8 then BLANK else ZERO)
  }

  function LengthKey(n: nat): seq<Byte> {
    Hex(n, 8, ZERO)
  }

  /** One field, with its border. */
  function Key(v: Value, k: Kind, border: seq<Byte>): seq<Byte>
    requires HasKind(v, k)
    decreases k, 1
  {
    FieldText(v, k, border) + border
  }

  function FieldText(v: Value, k: Kind, border: seq<Byte>): seq<Byte>
    requires HasKind(v, k)
    decreases k, 0
  {
    match k
    case Int(w) => IntKey(v.n, w)
    case Bool => [if v.b then 49 else 48]
    case Fixed(_) => v.s
    case Carrier => LengthKey(|v.s|) + v.s
    case Terminated(_) => LengthKey(|v.s| - 1) + v.s[..|v.s| - 1]
    case Str => LengthKey(|v.s|) + v.s
    case Object(fields) => Keys(v.fs, fields, border)
  }

  function Keys(vs: seq<Value>, ks: seq<Kind>, border: seq<Byte>): seq<Byte>
    requires HasKinds(vs, ks)
    decreases ks
  {
    if ks == [] then [] else Key(vs[0], ks[0], border) + Keys(vs[1..], ks[1..], border)
  }

  // --------------------------------------------------------------- the decoding

  predicate IsSpace(c: Byte) {
    c == 32 || 9 <= c <= 13
  }

  predicate IsHex(c: Byte) {
    48 <= c <= 57 || 97 <= c <= 102 || 65 <= c <= 70
  }

  function HexOf(c: Byte): (d: nat)
    requires IsHex(c)
    ensures d < 16
  {
    if c <= 57 then c - 48 else if c >= 97 then c - 87 else c - 55
  }

  function DropSpaces(s: seq<Byte>): seq<Byte> {
    if s != [] && IsSpace(s[0]) then DropSpaces(s[1..]) else s
  }

  function Accumulate(s: seq<Byte>, acc: nat): nat
    decreases |s|
  {
    if s == [] || !IsHex(s[0]) then acc else Accumulate(s[1..], 16 * acc + HexOf(s[0]))
  }

  /** strtoul in base 16: white space, a sign, 0x, digits; what is no number reads as
      zero. */
  function Strtoul(text: seq<Byte>, modulus: nat): nat
    requires modulus > 0
  {
    var s := DropSpaces(text);
    var negative := s != [] && s[0] == 45;
    var t := if s != [] && (s[0] == 43 || s[0] == 45) then s[1..] else s;
    var u := if |t| >= 3 && t[0] == 48 && (t[1] == 120 || t[1] == 88) && IsHex(t[2]) then t[2..] else t;
    var v := Accumulate(u, 0);
    if negative then (modulus - v % modulus) % modulus else v % modulus
  }

  function ReadInt(key: seq<Byte>, cur: nat, w: nat): Read<nat>
    requires w > 0
  {
    if cur + 2 * w > |key| then Failed
    else Got(Strtoul(key[cur..cur + 2 * w], Power(256, w)), cur + 2 * w)
  }

  /** A length and as many bytes. */
  function ReadCounted(key: seq<Byte>, cur: nat): Read<seq<Byte>> {
    var len := ReadInt(key, cur, 4);
    if len.Failed? then Failed else ReadBytes(key, len.cur, len.value)
  }

  function Bordered(r: Read<Value>, border: seq<Byte>): Read<Value> {
    if r.Failed? then r else Got(r.value, r.cur + |border|)
  }

  /** One field; the border behind it is skipped, not compared. */
  function Unkey(key: seq<Byte>, cur: nat, k: Kind, border: seq<Byte>): Read<Value>
    requires ProperKind(k)
    decreases k, 0
  {
    Bordered(
      match k
      case Int(w) =>
        var r := ReadInt(key, cur, w);
        if r.Failed? then Failed else Got(Num(r.value), r.cur)
      case Bool => if cur + 1 > |key| then Failed else Got(Flag(key[cur] == 49), cur + 1)
      case Fixed(len) =>
        var r := ReadBytes(key, cur, len);
        if r.Failed? then Failed else Got(Bytes(r.value), r.cur)
      case Carrier =>
        var r := ReadCounted(key, cur);
        if r.Failed? then Failed else Got(Bytes(r.value), r.cur)
      case Terminated(t) =>
        var r := ReadCounted(key, cur);
        if r.Failed? then Failed else Got(Bytes(r.value + [t]), r.cur)
      case Str =>
        var r := ReadCounted(key, cur);
        if r.Failed? then Failed else Got(Bytes(r.value), r.cur)
      case Object(fields) =>
        var r := Unkeys(key, cur, fields, border);
        if r.Failed? then Failed else Got(Fields(r.value), r.cur),
      border)
  }

  function Unkeys(key: seq<Byte>, cur: nat, ks: seq<Kind>, border: seq<Byte>): Read<seq<Value>>
    requires ProperKinds(ks)
    decreases ks
  {
    if ks == [] then Got([], cur)
    else
      var first := Unkey(key, cur, ks[0], border);
      if first.Failed? then Failed
      else
        var rest := Unkeys(key, first.cur, ks[1..], border);
        if rest.Failed? then Failed else Got([first.value] + rest.value, rest.cur)
  }

  // ---------------------------------------------------------- numbers read back

  lemma PadParses(v: nat, w: nat, pad: Byte)
    requires pad == BLANK || pad == ZERO
    requires v < Power(16, w)
    ensures AllHex(DropSpaces(Padded(v, w, pad))) && HexValue(DropSpaces(Padded(v, w, pad))) == v
    decreases w
  {
    if v == 0 {
      FillParses(pad, w);
    } else {
      PowerBelow(v, w);
      PadParses(v / 16, w - 1, pad);
      DropEnd(Padded(v / 16, w - 1, pad), HexDigit(v % 16));
      ValueEnd(DropSpaces(Padded(v / 16, w - 1, pad)), HexDigit(v % 16));
    }
  }

  predicate AllHex(s: seq<Byte>) {
    forall c :: c in s ==> IsHex(c)
  }

  function HexValue(s: seq<Byte>): nat
    requires AllHex(s)
  {
    if s == [] then 0 else 16 * HexValue(s[..|s| - 1]) + HexOf(s[|s| - 1])
  }

  lemma PowerBelow(v: nat, w: nat)
    requires 0 < v < Power(16, w)
    ensures w > 0 && v / 16 < Power(16, w - 1)
  {
  }

  lemma {:induction false} FillParses(pad: Byte, n: nat)
    requires pad == BLANK || pad == ZERO
    ensures AllHex(DropSpaces(Fill(pad, n))) && HexValue(DropSpaces(Fill(pad, n))) == 0
  {
    if n > 0 {
      FillParses(pad, n - 1);
      if pad == ZERO {
        DropEnd(Fill(pad, n - 1), pad);
        ValueEnd(DropSpaces(Fill(pad, n - 1)), pad);
      } else {
        DropBlank(n);
      }
    }
  }

  lemma {:induction false} DropBlank(n: nat)
    ensures DropSpaces(Fill(BLANK, n)) == []
  {
    if n > 0 {
      FillFront(BLANK, n);
      DropBlank(n - 1);
    }
  }

  lemma {:induction false} FillFront(pad: Byte, n: nat)
    requires n > 0
    ensures Fill(pad, n) == [pad] + Fill(pad, n - 1)
  {
    if n > 1 {
      FillFront(pad, n - 1);
    }
  }

  lemma {:induction false} DropEnd(s: seq<Byte>, c: Byte)
    requires !IsSpace(c)
    ensures DropSpaces(s + [c]) == DropSpaces(s) + [c]
  {
    if s != [] && IsSpace(s[0]) {
      assert (s + [c])[1..] == s[1..] + [c];
      DropEnd(s[1..], c);
    }
  }

  lemma ValueEnd(s: seq<Byte>, c: Byte)
    requires AllHex(s) && IsHex(c)
    ensures AllHex(s + [c]) && HexValue(s + [c]) == 16 * HexValue(s) + HexOf(c)
  {
    assert (s + [c])[..|s|] == s;
  }

  lemma {:induction false} AccumulateAll(s: seq<Byte>, acc: nat)
    requires AllHex(s)
    ensures Accumulate(s, acc) == acc * Power(16, |s|) + HexValue(s)
    decreases |s|
  {
    if s != [] {
      var init, c := s[..|s| - 1], s[|s| - 1];
      assert s == init + [c];
      hide Accumulate, HexOf, IsHex;
      AccumulateAll(init, acc);
      AccumulateEnd(init, c, acc);
      ScaleUp(acc, Power(16, |init|), HexValue(init));
    }
  }

  lemma ScaleUp(acc: nat, p: nat, x: nat)
    ensures 16 * (acc * p + x) == acc * (16 * p) + 16 * x
  {
  }

  lemma {:induction false} AccumulateEnd(s: seq<Byte>, c: Byte, acc: nat)
    requires AllHex(s) && IsHex(c)
    ensures Accumulate(s + [c], acc) == 16 * Accumulate(s, acc) + HexOf(c)
    decreases |s|
  {
    if s == [] {
      assert Accumulate([c], acc) == Accumulate([], 16 * acc + HexOf(c)) by { assert [c][1..] == []; }
    } else {
      assert (s + [c])[1..] == s[1..] + [c];
      AccumulateEnd(s[1..], c, 16 * acc + HexOf(s[0]));
    }
  }

  lemma HexParses(v: nat, w: nat, pad: Byte)
    requires w > 0 && (pad == BLANK || pad == ZERO) && v < Power(16, w)
    ensures var s := DropSpaces(Hex(v, w, pad)); s != [] && AllHex(s) && HexValue(s) == v
  {
    PadParses(v / 16, w - 1, pad);
    DropEnd(Padded(v / 16, w - 1, pad), HexDigit(v % 16));
    ValueEnd(DropSpaces(Padded(v / 16, w - 1, pad)), HexDigit(v % 16));
  }

  lemma StrtoulHex(v: nat, w: nat, pad: Byte, modulus: nat)
    requires w > 0 && (pad == BLANK || pad == ZERO) && v < Power(16, w) && modulus > 0
    ensures Strtoul(Hex(v, w, pad), modulus) == v % modulus
  {
    var s := DropSpaces(Hex(v, w, pad));
    HexParses(v, w, pad);
    assert s[0] in s;
    if |s| >= 2 {
      assert s[1] in s;
    }
    AccumulateAll(s, 0);
  }

  lemma {:induction false} DropBlanks(blanks: seq<Byte>, rest: seq<Byte>)
    requires (forall c :: c in blanks ==> IsSpace(c)) && (rest != [] ==> !IsSpace(rest[0]))
    ensures DropSpaces(blanks + rest) == rest
  {
    if blanks == [] {
      assert [] + rest == rest;
    } else {
      assert (blanks + rest)[1..] == blanks[1..] + rest;
      DropBlanks(blanks[1..], rest);
    }
  }

  lemma {:induction false} AccumulateStops(digits: seq<Byte>, tail: seq<Byte>, acc: nat)
    requires AllHex(digits) && (tail != [] ==> !IsHex(tail[0]))
    ensures Accumulate(digits + tail, acc) == Accumulate(digits, acc)
    decreases |digits|
  {
    if digits == [] {
      assert [] + tail == tail;
    } else {
      assert (digits + tail)[1..] == digits[1..] + tail;
      AccumulateStops(digits[1..], tail, 16 * acc + HexOf(digits[0]));
    }
  }

  function Mark(sign: string): seq<Byte>
    requires sign == "" || sign == "+" || sign == "-"
  {
    if sign == "" then [] else if sign == "+" then [43] else [45]
  }

  function Hexed(prefixed: bool, digits: seq<Byte>): seq<Byte> {
    if prefixed then [48, 120] + digits else digits
  }

  /** Behind the white space: a sign and what follows it. */
  lemma SignRead(text: seq<Byte>, sign: string, number: seq<Byte>, modulus: nat)
    requires (sign == "" || sign == "+" || sign == "-") && modulus > 0
    requires DropSpaces(text) == Mark(sign) + number
    requires number != [] && number[0] != 43 && number[0] != 45
    ensures var u := if |number| >= 3 && number[0] == 48 && (number[1] == 120 || number[1] == 88) && IsHex(number[2])
                     then number[2..] else number;
      var v := Accumulate(u, 0) % modulus;
      Strtoul(text, modulus) == if sign == "-" then (modulus - v) % modulus else v
  {
    var s := Mark(sign) + number;
    assert sign == "" ==> s == number;
    assert sign != "" ==> s[0] == Mark(sign)[0] && s[1..] == number;
    hide DropSpaces, Accumulate;
  }

  /** The prefix is dropped; digits alone are not taken for one. */
  lemma PrefixRead(prefixed: bool, digits: seq<Byte>, tail: seq<Byte>)
    requires digits != [] && AllHex(digits)
    requires !prefixed ==> tail == [] || (tail[0] != 120 && tail[0] != 88)
    ensures var number := Hexed(prefixed, digits + tail);
      && number[0] == (if prefixed then 48 else digits[0]) && IsHex(number[0])
      && digits + tail ==
           if |number| >= 3 && number[0] == 48 && (number[1] == 120 || number[1] == 88) && IsHex(number[2])
           then number[2..] else number
  {
    assert digits[0] in digits;
    if |digits| > 1 {
      assert digits[1] in digits;
    }
    assert ([48, 120] + (digits + tail))[2..] == digits + tail;
  }

  lemma HexIsNoSpace(c: Byte)
    requires IsHex(c) || c == 43 || c == 45
    ensures !IsSpace(c) && (IsHex(c) ==> c != 43 && c != 45)
  {
  }

  lemma MarkFirst(sign: string, number: seq<Byte>)
    requires (sign == "" || sign == "+" || sign == "-") && number != []
    ensures var s := Mark(sign) + number; s != [] && (s[0] == number[0] || s[0] == 43 || s[0] == 45)
  {
  }

  /** The number in any text that begins like one, a key of ours or not: white space, a
      sign, 0x, and hexadecimal digits of either case as far as they go; a minus sign
      negates, modulo the size of the type. */
  lemma TextIsNumber(blanks: seq<Byte>, sign: string, prefixed: bool, digits: seq<Byte>, tail: seq<Byte>, modulus: nat)
    requires (forall c :: c in blanks ==> IsSpace(c)) && (sign == "" || sign == "+" || sign == "-") && modulus > 0
    requires digits != [] && AllHex(digits) && (tail != [] ==> !IsHex(tail[0]))
    requires !prefixed ==> tail == [] || (tail[0] != 120 && tail[0] != 88)
    ensures var v := HexValue(digits) % modulus;
      Strtoul(blanks + (Mark(sign) + Hexed(prefixed, digits + tail)), modulus) ==
        if sign == "-" then (modulus - v) % modulus else v
  {
    hide *;
    var number := Hexed(prefixed, digits + tail);
    PrefixRead(prefixed, digits, tail);
    HexIsNoSpace(number[0]);
    HexIsNoSpace(43);
    HexIsNoSpace(45);
    MarkFirst(sign, number);
    DropBlanks(blanks, Mark(sign) + number);
    SignRead(blanks + (Mark(sign) + number), sign, number, modulus);
    AccumulateStops(digits, tail, 0);
    AccumulateAll(digits, 0);
    Zero(Power(16, |digits|));
  }

  lemma Zero(p: nat)
    ensures 0 * p == 0
  {
  }

  lemma KeyPowers(w: nat)
    requires ProperWidth(w)
    ensures Power(16, 2 * w) == Power(256, w)
    ensures forall n :: 0 <= n < Power(256, w) ==> Kept(n, w) < Power(256, w) && (w < 8 ==> Kept(n, w) == n)
    ensures TWO32 <= Power(256, 8)
  {
    Widths();
    assert Power(16, 2) == 256;
    assert Power(16, 4) == 16 * (16 * Power(16, 2));
    assert Power(16, 8) == 16 * (16 * (16 * (16 * Power(16, 4))));
    assert Power(16, 12) == 16 * (16 * (16 * (16 * Power(16, 8))));
    assert Power(16, 16) == 16 * (16 * (16 * (16 * Power(16, 12))));
  }

  // ------------------------------------------------------------------ what it looks like

  /** The digits of v, most significant first, and `pad` where there is none left. */
  predicate HexText(s: seq<Byte>, v: nat, pad: char) {
    forall i :: 0 <= i < |s| ==>
      s[i] as int == (if v / Power(16, |s| - 1 - i) > 0 || i == |s| - 1
                      then "0123456789abcdef"[v / Power(16, |s| - 1 - i) % 16] else pad) as int
  }

  lemma {:induction false} PaddedText(v: nat, w: nat, pad: Byte, i: nat)
    requires i < w
    ensures var q := v / Power(16, w - 1 - i);
      Padded(v, w, pad)[i] == if q > 0 then HexDigit(q % 16) else pad
    decreases w
  {
    if v == 0 {
      FillIs(pad, w, i);
      QuotientIsUnique(0, Power(16, w - 1 - i), 0, 0);
    } else if i < w - 1 {
      PaddedText(v / 16, w - 1, pad, i);
      DivideTwice(v, 16, Power(16, w - 2 - i));
    } else {
      assert Power(16, 0) == 1;
    }
  }

  lemma {:induction false} FillIs(pad: Byte, n: nat, i: nat)
    requires i < n
    ensures Fill(pad, n)[i] == pad
  {
    if i < n - 1 {
      FillIs(pad, n - 1, i);
    }
  }

  lemma HexDigitIs(d: nat)
    requires d < 16
    ensures HexDigit(d) == "0123456789abcdef"[d] as int
  {
  }

  lemma HexIsText(v: nat, w: nat, pad: char)
    requires w > 0 && pad as int < 256
    ensures HexText(Hex(v, w, pad as Byte), v, pad)
  {
    var s := Hex(v, w, pad as Byte);
    forall i | 0 <= i < w
      ensures s[i] as int == (if v / Power(16, w - 1 - i) > 0 || i == w - 1
                              then "0123456789abcdef"[v / Power(16, w - 1 - i) % 16] else pad) as int
    {
      if i < w - 1 {
        PaddedText(v / 16, w - 1, pad as Byte, i);
        DivideTwice(v, 16, Power(16, w - 2 - i));
      } else {
        assert Power(16, 0) == 1;
      }
      HexDigitIs(v / Power(16, w - 1 - i) % 16);
    }
  }

  /** Each field as it stands in a key: integers in lower-case hexadecimal of two digits
      a byte, with zeros in front, or blanks in front of a 64-bit one; lengths in eight
      digits; a boolean as 1 or 0; and the border behind it. */
  lemma FieldLooks(v: Value, k: Kind, border: seq<Byte>)
    requires HasKind(v, k) && !k.Object?
    ensures var key := Key(v, k, border);
      match k
      case Int(w) =>
        |key| == 2 * w + |border| && HexText(key[..2 * w], Kept(v.n, w), if w == 8 then ' ' else '0')
        && key[2 * w..] == border
      case Bool => key == [(if v.b then '1' else '0') as Byte] + border
      case Fixed(_) => key == v.s + border
      case Terminated(_) =>
        |key| == 7 + |v.s| + |border| && HexText(key[..8], |v.s| - 1, '0') && key[8..] == v.s[..|v.s| - 1] + border
      case _ => |key| == 8 + |v.s| + |border| && HexText(key[..8], |v.s|, '0') && key[8..] == v.s + border
  {
    hide Hex, HexText, Power;
    match k
    case Int(w) =>
      HexIsText(Kept(v.n, w), 2 * w, if w == 8 then ' ' else '0');
      assert Key(v, k, border)[..2 * w] == IntKey(v.n, w);
    case Terminated(_) =>
      HexIsText(|v.s| - 1, 8, '0');
      assert Key(v, k, border)[..8] == LengthKey(|v.s| - 1);
    case Carrier =>
      HexIsText(|v.s|, 8, '0');
      assert Key(v, k, border)[..8] == LengthKey(|v.s|);
    case Str =>
      HexIsText(|v.s|, 8, '0');
      assert Key(v, k, border)[..8] == LengthKey(|v.s|);
    case _ =>
  }

  // ---------------------------------------------------------------- the round trip

  /** What a key remembers of a value. */
  function Remembered(v: Value, k: Kind): Value
    requires HasKind(v, k)
    decreases k, 0
  {
    match k
    case Int(w) => Num(Kept(v.n, w))
    case Object(fields) => Fields(AllRemembered(v.fs, fields))
    case _ => v
  }

  function AllRemembered(vs: seq<Value>, ks: seq<Kind>): seq<Value>
    requires HasKinds(vs, ks)
    decreases ks
  {
    if ks == [] then [] else [Remembered(vs[0], ks[0])] + AllRemembered(vs[1..], ks[1..])
  }

  lemma ReadIntKey(key: seq<Byte>, cur: nat, n: nat, w: nat)
    requires ProperWidth(w) && n < Power(256, w) && StandsAt(key, cur, IntKey(n, w))
    ensures ReadInt(key, cur, w) == Got(Kept(n, w), cur + 2 * w)
  {
    KeyPowers(w);
    hide Power, Hex, Strtoul, Kept, ProperWidth;
    StrtoulHex(Kept(n, w), 2 * w, if w == 8 then BLANK else ZERO, Power(256, w));
    QuotientIsUnique(Kept(n, w), Power(256, w), 0, Kept(n, w));
  }

  lemma LengthIsInt(n: nat)
    requires n < TWO32
    ensures LengthKey(n) == IntKey(n, 4) && n < Power(256, 4) && Kept(n, 4) == n && |LengthKey(n)| == 8
  {
    Widths();
  }

  lemma ReadCountedKey(key: seq<Byte>, cur: nat, s: seq<Byte>, rest: seq<Byte>)
    requires |s| < TWO32 && StandsAt(key, cur, LengthKey(|s|) + s + rest)
    ensures ReadCounted(key, cur) == Got(s, cur + 8 + |s|)
  {
    hide StandsAt, LengthKey, IntKey, ReadInt, Power, Kept, ReadBytes;
    LengthIsInt(|s|);
    assert LengthKey(|s|) + s + rest == LengthKey(|s|) + (s + rest);
    StandsSplit(key, cur, LengthKey(|s|), s + rest);
    StandsSplit(key, cur + 8, s, rest);
    ReadIntKey(key, cur, |s|, 4);
    ReadBytesAt(key, cur + 8, s);
  }

  lemma LeafReadBack(key: seq<Byte>, cur: nat, v: Value, k: Kind, border: seq<Byte>)
    requires HasKind(v, k) && StandsAt(key, cur, Key(v, k, border)) && !k.Object? && ProperKind(k)
    ensures Unkey(key, cur, k, border) == Got(Remembered(v, k), cur + |Key(v, k, border)|)
  {
    hide Keys, Unkeys, Power, StandsAt, ReadInt, IntKey, ReadCounted, LengthKey, ReadBytes, Kept;
    match k
    case Int(w) =>
      StandsSplit(key, cur, IntKey(v.n, w), border);
      ReadIntKey(key, cur, v.n, w);
    case Bool =>
      StandsSplit(key, cur, [if v.b then 49 else 48], border);
      StandsOne(key, cur, if v.b then 49 else 48);
    case Fixed(_) =>
      StandsSplit(key, cur, v.s, border);
      ReadBytesAt(key, cur, v.s);
    case Terminated(t) =>
      LengthIsInt(|v.s| - 1);
      ReadCountedKey(key, cur, v.s[..|v.s| - 1], border);
      assert v.s[..|v.s| - 1] + [t] == v.s;
    case Carrier =>
      LengthIsInt(|v.s|);
      ReadCountedKey(key, cur, v.s, border);
    case Str =>
      LengthIsInt(|v.s|);
      ReadCountedKey(key, cur, v.s, border);
  }

  /** One field of a key is read back, and the border behind it skipped, wherever the
      key stands and whatever follows it. */
  lemma {:induction false} FieldReadBack(key: seq<Byte>, cur: nat, v: Value, k: Kind, border: seq<Byte>)
    requires HasKind(v, k) && StandsAt(key, cur, Key(v, k, border))
    ensures ProperKind(k) && Unkey(key, cur, k, border) == Got(Remembered(v, k), cur + |Key(v, k, border)|)
    decreases k, 0
  {
    KindIsProper(v, k);
    if k.Object? {
      hide Keys, Unkeys, AllRemembered, StandsAt;
      StandsSplit(key, cur, Keys(v.fs, k.fields, border), border);
      KeyReadBack(key, cur, v.fs, k.fields, border);
    } else {
      hide *;
      LeafReadBack(key, cur, v, k, border);
    }
  }

  lemma UnkeysStep(key: seq<Byte>, cur: nat, ks: seq<Kind>, border: seq<Byte>, v: Value, mid: nat,
                   rest: seq<Value>, end: nat)
    requires ks != [] && ProperKinds(ks)
    requires Unkey(key, cur, ks[0], border) == Got(v, mid) && Unkeys(key, mid, ks[1..], border) == Got(rest, end)
    ensures Unkeys(key, cur, ks, border) == Got([v] + rest, end)
  {
    hide Unkey;
  }

  lemma KeysStep(vs: seq<Value>, ks: seq<Kind>, border: seq<Byte>)
    requires HasKinds(vs, ks) && ks != []
    ensures |vs| == |ks| && HasKind(vs[0], ks[0]) && HasKinds(vs[1..], ks[1..])
    ensures Keys(vs, ks, border) == Key(vs[0], ks[0], border) + Keys(vs[1..], ks[1..], border)
    ensures AllRemembered(vs, ks) == [Remembered(vs[0], ks[0])] + AllRemembered(vs[1..], ks[1..])
  {
    hide Key, Remembered;
  }

  lemma {:induction false} KeyReadBack(key: seq<Byte>, cur: nat, vs: seq<Value>, ks: seq<Kind>, border: seq<Byte>)
    requires HasKinds(vs, ks) && StandsAt(key, cur, Keys(vs, ks, border))
    ensures ProperKinds(ks)
    ensures Unkeys(key, cur, ks, border) == Got(AllRemembered(vs, ks), cur + |Keys(vs, ks, border)|)
    decreases ks
  {
    KindsAreProper(vs, ks);
    if ks != [] {
      hide *;
      KeysStep(vs, ks, border);
      var first, others := Key(vs[0], ks[0], border), Keys(vs[1..], ks[1..], border);
      StandsSplit(key, cur, first, others);
      FieldReadBack(key, cur, vs[0], ks[0], border);
      KeyReadBack(key, cur + |first|, vs[1..], ks[1..], border);
      UnkeysStep(key, cur, ks, border, Remembered(vs[0], ks[0]), cur + |first|,
                 AllRemembered(vs[1..], ks[1..]), cur + |first| + |others|);
    }
  }

  /** No 64-bit integer needs more than 32 bits. */
  predicate Small(v: Value, k: Kind)
    requires HasKind(v, k)
    decreases k, 0
  {
    match k
    case Int(w) => w == 8 ==> v.n < TWO32
    case Object(fields) => AllSmall(v.fs, fields)
    case _ => true
  }

  predicate AllSmall(vs: seq<Value>, ks: seq<Kind>)
    requires HasKinds(vs, ks)
    decreases ks
  {
    ks == [] || (Small(vs[0], ks[0]) && AllSmall(vs[1..], ks[1..]))
  }

  lemma {:induction false} RememberedExactly(v: Value, k: Kind)
    requires HasKind(v, k)
    ensures Remembered(v, k) == v <==> Small(v, k)
    decreases k, 0
  {
    match k
    case Int(w) =>
    case Object(fields) => AllRememberedExactly(v.fs, fields);
    case _ =>
  }

  lemma {:induction false} AllRememberedExactly(vs: seq<Value>, ks: seq<Kind>)
    requires HasKinds(vs, ks)
    ensures AllRemembered(vs, ks) == vs <==> AllSmall(vs, ks)
    decreases ks
  {
    if ks != [] {
      RememberedExactly(vs[0], ks[0]);
      AllRememberedExactly(vs[1..], ks[1..]);
      assert vs == [vs[0]] + vs[1..];
      assert AllRemembered(vs, ks)[0] == Remembered(vs[0], ks[0]);
      assert AllRemembered(vs, ks)[1..] == AllRemembered(vs[1..], ks[1..]);
    }
  }

  /** Unmarshalling a key consumes all of it, and gives the object back exactly when
      none of its 64-bit integers needs more than 32 bits, for any border. */
  lemma RoundTripExactly(vs: seq<Value>, ks: seq<Kind>, border: seq<Byte>)
    requires HasKinds(vs, ks)
    ensures ProperKinds(ks)
    ensures var r := Unkeys(Keys(vs, ks, border), 0, ks, border);
      && r.Got? && r.cur == |Keys(vs, ks, border)|
      && (r.value == vs <==> AllSmall(vs, ks))
  {
    KeyReadBack(Keys(vs, ks, border), 0, vs, ks, border);
    AllRememberedExactly(vs, ks);
  }

  /** A key depends on what it remembers and on nothing else. */
  lemma {:induction false} RememberedKey(v: Value, u: Value, k: Kind, border: seq<Byte>)
    requires HasKind(v, k) && HasKind(u, k) && Remembered(v, k) == Remembered(u, k)
    ensures Key(v, k, border) == Key(u, k, border)
    decreases k, 0
  {
    if k.Object? {
      RememberedKeys(v.fs, u.fs, k.fields, border);
    }
  }

  lemma {:induction false} RememberedKeys(vs: seq<Value>, us: seq<Value>, ks: seq<Kind>, border: seq<Byte>)
    requires HasKinds(vs, ks) && HasKinds(us, ks) && AllRemembered(vs, ks) == AllRemembered(us, ks)
    ensures Keys(vs, ks, border) == Keys(us, ks, border)
    decreases ks
  {
    if ks != [] {
      KeysStep(vs, ks, border);
      KeysStep(us, ks, border);
      hide *;
      var r, t := [Remembered(vs[0], ks[0])], [Remembered(us[0], ks[0])];
      var rs, ts := AllRemembered(vs[1..], ks[1..]), AllRemembered(us[1..], ks[1..]);
      assert r[0] == (r + rs)[0] == (t + ts)[0] == t[0] && rs == (r + rs)[1..] == (t + ts)[1..] == ts;
      RememberedKey(vs[0], us[0], ks[0], border);
      RememberedKeys(vs[1..], us[1..], ks[1..], border);
    }
  }

  /** Of two objects of one schema, one key is the beginning of the other, for any
      border, if and only if the objects differ in the upper halves of 64-bit integers
      at most; and then the keys are the same. */
  lemma PrefixFree(vs: seq<Value>, us: seq<Value>, ks: seq<Kind>, border: seq<Byte>)
    requires HasKinds(vs, ks) && HasKinds(us, ks)
    ensures Keys(vs, ks, border) <= Keys(us, ks, border) <==> AllRemembered(vs, ks) == AllRemembered(us, ks)
    ensures Keys(vs, ks, border) == Keys(us, ks, border) <==> AllRemembered(vs, ks) == AllRemembered(us, ks)
    ensures AllSmall(vs, ks) && AllSmall(us, ks) ==> (Keys(vs, ks, border) == Keys(us, ks, border) <==> vs == us)
  {
    var key := Keys(us, ks, border);
    if Keys(vs, ks, border) <= key {
      KeyReadBack(key, 0, us, ks, border);
      KeyReadBack(key, 0, vs, ks, border);
    }
    if AllRemembered(vs, ks) == AllRemembered(us, ks) {
      RememberedKeys(vs, us, ks, border);
    }
    AllRememberedExactly(vs, ks);
    AllRememberedExactly(us, ks);
  }

  /** Two 64-bit integers with one key. */
  lemma LargeIntegersCollide(border: seq<Byte>)
    ensures HasKinds([Num(7)], [Int(8)]) && HasKinds([Num(TWO32 + 7)], [Int(8)])
    ensures Keys([Num(7)], [Int(8)], border) == Keys([Num(TWO32 + 7)], [Int(8)], border)
  {
    Widths();
    assert Kept(TWO32 + 7, 8) == Kept(7, 8);
  }

  // --------------------------------------------------------------------- the order

  /** Byte-lexicographic order; a beginning comes first. */
  predicate Lex(x: seq<Byte>, y: seq<Byte>) {
    y != [] && (x == [] || x[0] < y[0] || (x[0] == y[0] && Lex(x[1..], y[1..])))
  }

  lemma {:induction false} LexSplit(x: seq<Byte>, y: seq<Byte>, r: seq<Byte>, s: seq<Byte>)
    requires |x| == |y|
    ensures Lex(x + r, y + s) <==> Lex(x, y) || (x == y && Lex(r, s))
    decreases |x|
  {
    if x == [] {
      assert x + r == r && y + s == s;
    } else {
      assert (x + r)[1..] == x[1..] + r && (y + s)[1..] == y[1..] + s;
      LexSplit(x[1..], y[1..], r, s);
      assert x == [x[0]] + x[1..] && y == [y[0]] + y[1..];
    }
  }

  lemma {:induction false} LexOneWay(x: seq<Byte>, y: seq<Byte>)
    ensures Lex(x, y) ==> !Lex(y, x) && x != y
    decreases |x|
  {
    if x != [] && y != [] {
      LexOneWay(x[1..], y[1..]);
    }
  }

  lemma LexEnd(x: seq<Byte>, y: seq<Byte>, c: Byte, d: Byte)
    requires |x| == |y|
    ensures Lex(x, y) ==> Lex(x + [c], y + [d])
    ensures x == y && c < d ==> Lex(x + [c], y + [d])
  {
    LexSplit(x, y, [c], [d]);
  }

  /** Padded numbers of one width compare as numbers, since either padding comes
      before every digit but zero. */
  lemma {:induction false} PaddedOrder(a: nat, b: nat, w: nat, pad: Byte)
    requires a < b < Power(16, w) && (pad == BLANK || pad == ZERO)
    ensures Lex(Padded(a, w, pad), Padded(b, w, pad))
    decreases w
  {
    PowerBelow(b, w);
    hide Lex;
    var x, y := Padded(a / 16, w - 1, pad), Padded(b / 16, w - 1, pad);
    var c := if a == 0 then pad else HexDigit(a % 16);
    assert Padded(a, w, pad) == x + [c] by { PaddedZero(w, pad); }
    if a / 16 < b / 16 {
      PaddedOrder(a / 16, b / 16, w - 1, pad);
    }
    LexEnd(x, y, c, HexDigit(b % 16));
  }

  lemma PaddedZero(w: nat, pad: Byte)
    ensures Padded(0, w, pad) == Fill(pad, w)
  {
  }

  lemma HexOrder(a: nat, b: nat, w: nat, pad: Byte)
    requires w > 0 && a < b < Power(16, w) && (pad == BLANK || pad == ZERO)
    ensures Lex(Hex(a, w, pad), Hex(b, w, pad))
  {
    PowerBelow(b, w);
    hide Lex;
    if a / 16 < b / 16 {
      PaddedOrder(a / 16, b / 16, w - 1, pad);
    }
    LexEnd(Padded(a / 16, w - 1, pad), Padded(b / 16, w - 1, pad), HexDigit(a % 16), HexDigit(b % 16));
  }

  /** Records of integers and booleans only. */
  predicate Numeric(ks: seq<Kind>) {
    forall k :: k in ks ==> k.Int? || k.Bool?
  }

  function Rank(v: Value): nat {
    if v.Num? then v.n else if v.Flag? && v.b then 1 else 0
  }

  /** Field by field. */
  predicate RecordLess(vs: seq<Value>, us: seq<Value>)
    requires |vs| == |us|
    decreases |vs|
  {
    vs != [] && (Rank(vs[0]) < Rank(us[0]) || (Rank(vs[0]) == Rank(us[0]) && RecordLess(vs[1..], us[1..])))
  }

  lemma FieldLess(v: Value, u: Value, k: Kind, border: seq<Byte>)
    requires HasKind(v, k) && HasKind(u, k) && (k.Int? || k.Bool?)
    requires Rank(Remembered(v, k)) < Rank(Remembered(u, k))
    ensures |Key(v, k, border)| == |Key(u, k, border)| && Lex(Key(v, k, border), Key(u, k, border))
  {
    match k
    case Int(w) =>
      KeyPowers(w);
      HexOrder(Kept(v.n, w), Kept(u.n, w), 2 * w, if w == 8 then BLANK else ZERO);
      LexSplit(IntKey(v.n, w), IntKey(u.n, w), border, border);
    case Bool =>
  }

  lemma FieldOrder(v: Value, u: Value, k: Kind, border: seq<Byte>)
    requires HasKind(v, k) && HasKind(u, k) && (k.Int? || k.Bool?)
    ensures |Key(v, k, border)| == |Key(u, k, border)|
    ensures Lex(Key(v, k, border), Key(u, k, border)) <==> Rank(Remembered(v, k)) < Rank(Remembered(u, k))
    ensures Key(v, k, border) == Key(u, k, border) <==> Rank(Remembered(v, k)) == Rank(Remembered(u, k))
  {
    var x, y := Key(v, k, border), Key(u, k, border);
    LexOneWay(x, y);
    LexOneWay(y, x);
    hide Lex;
    if Rank(Remembered(v, k)) < Rank(Remembered(u, k)) {
      FieldLess(v, u, k, border);
    } else if Rank(Remembered(u, k)) < Rank(Remembered(v, k)) {
      FieldLess(u, v, k, border);
    }
  }

  /** The byte order of keys is the numeric order, field by field, of what the keys
      remember, borders and blank padding included. */
  lemma {:induction false} RememberedOrder(vs: seq<Value>, us: seq<Value>, ks: seq<Kind>, border: seq<Byte>)
    requires HasKinds(vs, ks) && HasKinds(us, ks) && Numeric(ks)
    ensures |AllRemembered(vs, ks)| == |AllRemembered(us, ks)| == |ks|
    ensures Lex(Keys(vs, ks, border), Keys(us, ks, border)) <==>
      RecordLess(AllRemembered(vs, ks), AllRemembered(us, ks))
    decreases ks
  {
    if ks != [] {
      KeysStep(vs, ks, border);
      KeysStep(us, ks, border);
      FieldOrder(vs[0], us[0], ks[0], border);
      RememberedOrder(vs[1..], us[1..], ks[1..], border);
      hide Lex, Keys, Key, Remembered, AllRemembered, Rank;
      LexSplit(Key(vs[0], ks[0], border), Key(us[0], ks[0], border),
               Keys(vs[1..], ks[1..], border), Keys(us[1..], ks[1..], border));
      assert ([Remembered(vs[0], ks[0])] + AllRemembered(vs[1..], ks[1..]))[1..] == AllRemembered(vs[1..], ks[1..]);
      assert ([Remembered(us[0], ks[0])] + AllRemembered(us[1..], ks[1..]))[1..] == AllRemembered(us[1..], ks[1..]);
    }
  }

  /** As long as 64-bit integers need no more than 32 bits, it is the numeric order of
      the records themselves. */
  lemma OrderPreserved(vs: seq<Value>, us: seq<Value>, ks: seq<Kind>, border: seq<Byte>)
    requires HasKinds(vs, ks) && HasKinds(us, ks) && Numeric(ks) && AllSmall(vs, ks) && AllSmall(us, ks)
    ensures |vs| == |us|
    ensures Lex(Keys(vs, ks, border), Keys(us, ks, border)) <==> RecordLess(vs, us)
  {
    RememberedOrder(vs, us, ks, border);
    AllRememberedExactly(vs, ks);
    AllRememberedExactly(us, ks);
  }

  /** The schema's keys compare as its records do, whatever they hold. */
  ghost predicate KeepsOrder(ks: seq<Kind>, border: seq<Byte>) {
    forall vs, us :: HasKinds(vs, ks) && HasKinds(us, ks) ==>
      |vs| == |us| && (Lex(Keys(vs, ks, border), Keys(us, ks, border)) <==> RecordLess(vs, us))
  }

  lemma {:induction false} NarrowIsSmall(vs: seq<Value>, ks: seq<Kind>)
    requires HasKinds(vs, ks) && Numeric(ks) && Int(8) !in ks
    ensures AllSmall(vs, ks)
    decreases ks
  {
    if ks != [] {
      assert ks[0] in ks;
      NarrowIsSmall(vs[1..], ks[1..]);
    }
  }

  function ZeroOf(k: Kind): Value {
    if k.Int? then Num(0) else Flag(false)
  }

  function Zeros(ks: seq<Kind>): seq<Value> {
    if ks == [] then [] else [ZeroOf(ks[0])] + Zeros(ks[1..])
  }

  lemma ZeroFits(ks: seq<Kind>)
    requires Numeric(ks) && ProperKinds(ks) && ks != []
    ensures HasKind(ZeroOf(ks[0]), ks[0]) && Numeric(ks[1..]) && ProperKinds(ks[1..])
  {
    assert ks[0] in ks;
    Widths();
  }

  lemma {:induction false} ZerosFit(ks: seq<Kind>)
    requires Numeric(ks) && ProperKinds(ks)
    ensures HasKinds(Zeros(ks), ks)
  {
    if ks != [] {
      ZeroFits(ks);
      ZerosFit(ks[1..]);
      assert Zeros(ks)[1..] == Zeros(ks[1..]);
    }
  }

  /** One field in front of two records. */
  lemma InFront(v: Value, u: Value, vs: seq<Value>, us: seq<Value>, ks: seq<Kind>)
    requires ks != [] && HasKind(v, ks[0]) && HasKind(u, ks[0]) && HasKinds(vs, ks[1..]) && HasKinds(us, ks[1..])
    ensures HasKinds([v] + vs, ks) && HasKinds([u] + us, ks)
    ensures AllRemembered([v] + vs, ks) == [Remembered(v, ks[0])] + AllRemembered(vs, ks[1..])
    ensures AllRemembered([u] + us, ks) == [Remembered(u, ks[0])] + AllRemembered(us, ks[1..])
  {
    assert ([v] + vs)[1..] == vs && ([u] + us)[1..] == us;
    hide Remembered, HasKind;
  }

  lemma LessInFront(v: Value, u: Value, vs: seq<Value>, us: seq<Value>)
    requires |vs| == |us|
    ensures RecordLess([v] + vs, [u] + us) <==> Rank(v) < Rank(u) || (Rank(v) == Rank(u) && RecordLess(vs, us))
  {
    assert ([v] + vs)[1..] == vs && ([u] + us)[1..] == us;
  }

  /** Two records that a 64-bit field puts in the wrong order. */
  lemma {:induction false} Misordered(ks: seq<Kind>) returns (vs: seq<Value>, us: seq<Value>)
    requires Numeric(ks) && ProperKinds(ks) && Int(8) in ks
    ensures HasKinds(vs, ks) && HasKinds(us, ks)
    ensures |vs| == |us| && |AllRemembered(vs, ks)| == |AllRemembered(us, ks)|
    ensures RecordLess(vs, us) && RecordLess(AllRemembered(us, ks), AllRemembered(vs, ks))
  {
    var v, u;
    ZeroFits(ks);
    if ks[0] == Int(8) {
      Widths();
      v, u, vs, us := Num(7), Num(TWO32), Zeros(ks[1..]), Zeros(ks[1..]);
      assert HasKind(v, ks[0]) && HasKind(u, ks[0]);
      assert Rank(v) < Rank(u) && Rank(Remembered(u, ks[0])) < Rank(Remembered(v, ks[0]));
      ZerosFit(ks[1..]);
    } else {
      v, u := ZeroOf(ks[0]), ZeroOf(ks[0]);
      vs, us := Misordered(ks[1..]);
    }
    hide *;
    InFront(v, u, vs, us, ks);
    LessInFront(v, u, vs, us);
    LessInFront(Remembered(u, ks[0]), Remembered(v, ks[0]), AllRemembered(us, ks[1..]), AllRemembered(vs, ks[1..]));
    vs, us := [v] + vs, [u] + us;
  }

  /** The order is kept for all records of a schema of numbers and booleans, for any
      border, if and only if it has no 64-bit field. */
  lemma OrderKeptExactly(ks: seq<Kind>, border: seq<Byte>)
    requires Numeric(ks) && ProperKinds(ks)
    ensures KeepsOrder(ks, border) <==> Int(8) !in ks
  {
    hide Lex, Keys, RecordLess, AllRemembered, HasKinds;
    if Int(8) in ks {
      var vs, us := Misordered(ks);
      RememberedOrder(us, vs, ks, border);
      LexOneWay(Keys(us, ks, border), Keys(vs, ks, border));
    } else {
      forall vs, us | HasKinds(vs, ks) && HasKinds(us, ks)
        ensures |vs| == |us| && (Lex(Keys(vs, ks, border), Keys(us, ks, border)) <==> RecordLess(vs, us))
      {
        NarrowIsSmall(vs, ks);
        NarrowIsSmall(us, ks);
        OrderPreserved(vs, us, ks, border);
      }
    }
  }

  /** Two 64-bit integers whose keys are in the wrong order. */
  lemma LargeIntegersMisorder(border: seq<Byte>)
    ensures HasKinds([Num(7)], [Int(8)]) && HasKinds([Num(TWO32)], [Int(8)])
    ensures RecordLess([Num(7)], [Num(TWO32)])
    ensures Lex(Keys([Num(TWO32)], [Int(8)], border), Keys([Num(7)], [Int(8)], border))
  {
    Widths();
    assert [Int(8)][1..] == [] && [Num(7)][1..] == [] && [Num(TWO32)][1..] == [];
    RememberedOrder([Num(TWO32)], [Num(7)], [Int(8)], border);
    assert AllRemembered([Num(TWO32)], [Int(8)]) == [Num(0)] + [];
  }
}
