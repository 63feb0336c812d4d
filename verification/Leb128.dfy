/** The LEB128 decoders of the unwinder, against the minimal encodings of
    section 7.6 of DWARF 4. */
module Leb128 {
  import opened Bits

  /** A decoded value and the cursor behind it. A read past the end of the bytes
      and a shift by the word size or more have no defined result. */
  datatype Decoded<T> = Done(value: T, next: nat) | PastEnd | BadShift

  /** (byte & 0x7f) << shift on 64-bit words */
  function Chunk(b: Byte, shift: nat): nat {
    (b % 0x80) * Pow2(shift) % WORD
  }

  /** The bit pattern gathered from pos on, and the shift after the last byte. */
  function Gather(mem: seq<Byte>, pos: nat, shift: nat, acc: nat): Decoded<(nat, nat)>
    decreases |mem| - pos
  {
    if pos >= |mem| then PastEnd
    else if shift >= 64 then BadShift
    else
      var acc' := Or(acc, Chunk(mem[pos], shift));
      if mem[pos] < 0x80 then Done((acc', shift + 7), pos + 1)
      else Gather(mem, pos + 1, shift + 7, acc')
  }

  /** Two's complement. */
  function Signed(pattern: nat): int
    requires pattern < WORD
  {
    if pattern < WORD / 2 then pattern else pattern - WORD
  }

  method DecodeUleb128(mem: seq<Byte>, pos: nat) returns (r: Decoded<nat>)
    ensures match Gather(mem, pos, 0, 0)
            case Done((v, _), next) => r == Done(v, next)
            case PastEnd => r.PastEnd?
            case BadShift => r.BadShift?
  {
    var p, shift, result := pos, 0, 0;
    while true
      invariant Gather(mem, p, shift, result) == Gather(mem, pos, 0, 0)
      decreases |mem| - p
    {
      if p >= |mem| {
        return PastEnd;
      }
      if shift >= 64 {
        return BadShift;
      }
      var byte := mem[p];
      p := p + 1;
      result := Or(result, Chunk(byte, shift));
      shift := shift + 7;
      if byte < 0x80 {
        return Done(result, p);
      }
    }
  }

  /** -(1 << shift) as a 64-bit word */
  function HighOnes(shift: nat): (r: nat)
    requires shift < 64
    ensures r == WORD - Pow2(shift) < WORD
  {
    Pow2InWord(shift);
    WORD - Pow2(shift)
  }

  /** The final sign extension: result |= -(1 << shift). */
  function Extended(pattern: nat, shift: nat, last: Byte): nat {
    if shift < 64 && last % 0x80 >= 0x40 then Or(pattern, HighOnes(shift)) else pattern
  }

  ghost function SlebResult(mem: seq<Byte>, pos: nat): Decoded<int> {
    match Gather(mem, pos, 0, 0)
    case Done((v, shift), next) =>
      if 0 < next <= |mem| && Extended(v, shift, mem[next - 1]) < WORD
      then Done(Signed(Extended(v, shift, mem[next - 1])), next) else PastEnd
    case PastEnd => PastEnd
    case BadShift => BadShift
  }

  method DecodeSleb128(mem: seq<Byte>, pos: nat) returns (r: Decoded<int>)
    ensures r == SlebResult(mem, pos)
  {
    GatherBounds(mem, pos, 0, 0);
    var p, shift, result := pos, 0, 0;
    while true
      invariant Gather(mem, p, shift, result) == Gather(mem, pos, 0, 0)
      decreases |mem| - p
    {
      if p >= |mem| {
        return PastEnd;
      }
      if shift >= 64 {
        return BadShift;
      }
      var byte := mem[p];
      p := p + 1;
      result := Or(result, Chunk(byte, shift));
      shift := shift + 7;
      if byte < 0x80 {
        return Done(Signed(Extended(result, shift, byte)), p);
      }
    }
  }

  /** Every gathered pattern is a 64-bit word, also after sign extension, and
      the cursor moves strictly forward inside the bytes. */
  lemma {:induction false} GatherBounds(mem: seq<Byte>, pos: nat, shift: nat, acc: nat)
    requires acc < WORD
    ensures match Gather(mem, pos, shift, acc)
            case Done((v, s), next) =>
              && v < WORD && pos < next <= |mem| && s >= 7
              && Extended(v, s, mem[next - 1]) < WORD
            case PastEnd => true
            case BadShift => true
    decreases |mem| - pos
  {
    if pos < |mem| && shift < 64 {
      var acc' := Or(acc, Chunk(mem[pos], shift));
      WordOr(acc, Chunk(mem[pos], shift));
      if mem[pos] < 0x80 {
        if shift + 7 < 64 { WordOr(acc', HighOnes(shift + 7)); }
      } else {
        GatherBounds(mem, pos + 1, shift + 7, acc');
      }
    }
  }

  lemma WordOr(a: nat, b: nat)
    requires a < WORD && b < WORD
    ensures Or(a, b) < WORD
  {
    Pow2Values();
    OrBelow(a, b, 64);
  }

  // ---------------------------------------------------------------------------
  // Minimal encodings
  // ---------------------------------------------------------------------------

  function EncodeUnsigned(v: nat): (r: seq<Byte>) {
    if v < 0x80 then [v] else [v % 0x80 + 0x80] + EncodeUnsigned(v / 0x80)
  }

  function EncodeSigned(v: int): (r: seq<Byte>)
    decreases if v < 0 then -v else v
  {
    var b := v % 0x80;
    var w := v / 0x80;
    if (w == 0 && b < 0x40) || (w == -1 && b >= 0x40) then [b] else [b + 0x80] + EncodeSigned(w)
  }

  // ---------------------------------------------------------------------------
  // Round trips
  // ---------------------------------------------------------------------------

  lemma OrCommutes(a: nat, b: nat)
    ensures Or(a, b) == Or(b, a)
    decreases a + b
  {
  }

  /** Bytes that do not overlap the accumulator are added to it. */
  lemma {:induction false} GatherStep(acc: nat, b: Byte, shift: nat)
    requires acc < Pow2(shift) && acc + (b % 0x80) * Pow2(shift) < WORD
    ensures Or(acc, Chunk(b, shift)) == acc + (b % 0x80) * Pow2(shift)
  {
    var x := (b % 0x80) * Pow2(shift);
    assert x % WORD == x;
    OrCommutes(acc, x);
    OrDisjoint(b % 0x80, acc, shift);
  }

  lemma Regroup(acc: nat, w: int, p: nat)
    requires acc < p
    ensures var acc' := acc + (w % 0x80) * p;
            0 <= acc' < 0x80 * p && acc' + (w / 0x80) * (0x80 * p) == acc + w * p
  {
    var q, r := w / 0x80, w % 0x80;
    MulMonotone(0, r, p);
    MulMonotone(r, 0x7f, p);
    assert w * p == 0x80 * q * p + r * p by {
      assert (0x80 * q + r) * p == 0x80 * q * p + r * p;
    }
    assert q * (0x80 * p) == 0x80 * q * p;
  }

  lemma {:induction false} ShiftBySeven(acc: nat, w: int, shift: nat)
    requires acc < Pow2(shift)
    ensures var acc' := acc + (w % 0x80) * Pow2(shift);
            && 0 <= acc' < Pow2(shift + 7)
            && acc' + (w / 0x80) * Pow2(shift + 7) == acc + w * Pow2(shift)
  {
    Pow2Add(7, shift);
    assert Pow2(7) == 0x80;
    Regroup(acc, w, Pow2(shift));
  }

  /** One byte of either encoding of w is read. */
  lemma {:induction false} ReadByte(mem: seq<Byte>, pos: nat, shift: nat, acc: nat, w: int)
    requires pos < |mem| && shift < 64 && mem[pos] % 0x80 == w % 0x80
    requires acc < Pow2(shift) && acc + (w % 0x80) * Pow2(shift) < WORD
    ensures var acc' := acc + (w % 0x80) * Pow2(shift);
            && 0 <= acc' < Pow2(shift + 7)
            && acc' + (w / 0x80) * Pow2(shift + 7) == acc + w * Pow2(shift)
            && Gather(mem, pos, shift, acc) ==
               if mem[pos] < 0x80 then Done((acc', shift + 7), pos + 1) else Gather(mem, pos + 1, shift + 7, acc')
  {
    ShiftBySeven(acc, w, shift);
    GatherStep(acc, mem[pos], shift);
  }

  lemma {:induction false} GatherUnsigned(mem: seq<Byte>, pos: nat, shift: nat, acc: nat, w: nat)
    requires acc < Pow2(shift) && acc + w * Pow2(shift) < WORD && shift < 64
    requires pos + |EncodeUnsigned(w)| <= |mem| && mem[pos..pos + |EncodeUnsigned(w)|] == EncodeUnsigned(w)
    ensures match Gather(mem, pos, shift, acc)
            case Done((v, _), next) => v == acc + w * Pow2(shift) && next == pos + |EncodeUnsigned(w)|
            case PastEnd => false
            case BadShift => false
    decreases w
  {
    var enc := EncodeUnsigned(w);
    assert mem[pos] == mem[pos..pos + |enc|][0] == enc[0];
    MulMonotone(w % 0x80, w, Pow2(shift));
    ReadByte(mem, pos, shift, acc, w);
    if w >= 0x80 {
      var acc' := acc + (w % 0x80) * Pow2(shift);
      assert mem[pos + 1..pos + |enc|] == enc[1..];
      NextShiftFits(acc', w / 0x80, shift + 7);
      GatherUnsigned(mem, pos + 1, shift + 7, acc', w / 0x80);
    } else {
      assert w % 0x80 == w;
    }
  }

  lemma MulMonotone(a: int, b: int, p: nat)
    requires a <= b
    ensures a * p <= b * p
  {
  }

  lemma {:induction false} NextShiftFits(acc: nat, w: nat, shift: nat)
    requires w > 0 && acc + w * Pow2(shift) < WORD
    ensures shift < 64
  {
    MulMonotone(1, w, Pow2(shift));
    Pow2InWord(shift);
  }

  /** Decoding the minimal encoding of any unsigned 64-bit value, at any place
      in a buffer, gives the value back and stops exactly behind it. */
  lemma UnsignedRoundTrip(before: seq<Byte>, v: nat, after: seq<Byte>)
    requires v < WORD
    ensures match Gather(before + EncodeUnsigned(v) + after, |before|, 0, 0)
            case Done((x, _), next) => x == v && next == |before| + |EncodeUnsigned(v)|
            case PastEnd => false
            case BadShift => false
  {
    var mem := before + EncodeUnsigned(v) + after;
    assert mem[|before|..|before| + |EncodeUnsigned(v)|] == EncodeUnsigned(v);
    assert Pow2(0) == 1;
    GatherUnsigned(mem, |before|, 0, 0, v);
  }

  /** What a signed decoding that starts in the middle must deliver. */
  ghost predicate DeliversSigned(mem: seq<Byte>, pos: nat, shift: nat, acc: nat, v: int, end: nat) {
    match Gather(mem, pos, shift, acc)
    case Done((x, s), next) =>
      && next == end && 0 < next <= |mem|
      && Extended(x, s, mem[next - 1]) < WORD && Signed(Extended(x, s, mem[next - 1])) == v
    case PastEnd => false
    case BadShift => false
  }

  lemma LastDigits(b: nat, w: int)
    requires b < 0x80 && b == w + (if b < 0x40 then 0 else 0x80)
    ensures w % 0x80 == b && w / 0x80 == (if b < 0x40 then 0 else -1)
  {
  }

  /** Extending the sign of a pattern of s bits. */
  lemma ExtendsTo(x: nat, s: nat, last: Byte, v: int)
    requires s < 64 && x < Pow2(s) && last < 0x80 && -HALF_WORD <= v < HALF_WORD
    requires v == x - (if last < 0x40 then 0 else Pow2(s))
    ensures Extended(x, s, last) < WORD && Signed(Extended(x, s, last)) == v
  {
    if last >= 0x40 {
      ExtendAdds(x, s);
    }
  }

  lemma TopDigit(x: nat, top: int, p: nat, v: int)
    requires x + top * p == v
    ensures top == 0 ==> v == x
    ensures top == -1 ==> v == x - p
  {
  }

  /** The last byte, when its sign bit can still be extended. */
  lemma {:induction false} LastByteExtends(mem: seq<Byte>, pos: nat, shift: nat, acc: nat, w: int, v: int)
    requires shift <= 56 && acc < Pow2(shift) && v == acc + w * Pow2(shift) && -HALF_WORD <= v < HALF_WORD
    requires pos < |mem| && mem[pos] < 0x80 && mem[pos] == w + (if mem[pos] < 0x40 then 0 else 0x80)
    ensures DeliversSigned(mem, pos, shift, acc, v, pos + 1)
  {
    var b := mem[pos];
    LastDigits(b, w);
    ShiftBySeven(acc, w, shift);
    Pow2InWord(shift + 7);
    ReadByte(mem, pos, shift, acc, w);
    var x := acc + b * Pow2(shift);
    TopDigit(x, w / 0x80, Pow2(shift + 7), v);
    ExtendsTo(x, shift + 7, b, v);
  }

  /** Or-ing the high ones onto a smaller pattern adds them. */
  lemma {:induction false} ExtendAdds(acc: nat, s: nat)
    requires s < 64 && acc < Pow2(s)
    ensures Or(acc, HighOnes(s)) == acc + WORD - Pow2(s)
  {
    var u := 64 - s;
    var x := Pow2(u) - 1;
    Pow2InWord(u + s);
    Pow2Add(u, s);
    MulLess(Pow2(u), Pow2(s));
    OrCommutes(acc, HighOnes(s));
    OrDisjoint(x, acc, s);
  }

  lemma MulLess(a: int, p: nat)
    ensures (a - 1) * p == a * p - p
  {
  }

  /** The tenth byte: only its lowest bit still fits, and that is the sign. */
  lemma {:induction false} TenthByte(mem: seq<Byte>, pos: nat, shift: nat, acc: nat, w: int)
    requires shift == 63 && acc < Pow2(shift) && -HALF_WORD <= acc + w * Pow2(shift) < HALF_WORD
    requires pos < |mem| && mem[pos] == w % 0x80
    ensures w == 0 || w == -1
    ensures DeliversSigned(mem, pos, shift, acc, acc + w * Pow2(shift), pos + 1)
  {
    Pow2InWord(shift);
    SignOnly(acc, w);
    if w == 0 {
      assert Chunk(mem[pos], shift) == 0;
      assert Or(acc, 0) == acc;
    } else {
      assert Chunk(mem[pos], shift) == HALF_WORD;
      OrCommutes(acc, HALF_WORD);
      OrDisjoint(1, acc, shift);
    }
  }

  lemma SignOnly(acc: nat, w: int)
    requires acc < HALF_WORD && -HALF_WORD <= acc + w * HALF_WORD < HALF_WORD
    ensures w == 0 || w == -1
  {
  }

  lemma {:induction false} ContinueSigned(mem: seq<Byte>, pos: nat, shift: nat, acc: nat, w: int, v: int, end: nat)
    requires pos < |mem| && shift <= 56 && mem[pos] % 0x80 == w % 0x80 && mem[pos] >= 0x80
    requires acc < Pow2(shift)
    ensures var acc' := acc + (w % 0x80) * Pow2(shift);
            && 0 <= acc' < Pow2(shift + 7)
            && acc' + (w / 0x80) * Pow2(shift + 7) == acc + w * Pow2(shift)
            && (DeliversSigned(mem, pos + 1, shift + 7, acc', v, end) ==> DeliversSigned(mem, pos, shift, acc, v, end))
  {
    ShiftBySeven(acc, w, shift);
    Pow2InWord(shift + 7);
    ReadByte(mem, pos, shift, acc, w);
  }

  /** The first byte of a signed encoding, and what follows it. */
  lemma EncodeSignedHead(w: int)
    ensures var enc := EncodeSigned(w);
            && enc[0] % 0x80 == w % 0x80
            && (if |enc| == 1 then enc[0] < 0x80 && enc[0] == w + (if enc[0] < 0x40 then 0 else 0x80)
                else enc[0] >= 0x80 && enc[1..] == EncodeSigned(w / 0x80) && w != 0 && w != -1)
  {
  }

  /** v is a signed word of which acc holds the low bits and w the rest. */
  ghost predicate Splits(shift: nat, acc: nat, w: int, v: int) {
    acc < Pow2(shift) && v == acc + w * Pow2(shift) && -HALF_WORD <= v < HALF_WORD
  }

  ghost predicate EncodedAt(mem: seq<Byte>, pos: nat, w: int) {
    pos + |EncodeSigned(w)| <= |mem| && mem[pos..pos + |EncodeSigned(w)|] == EncodeSigned(w)
  }

  lemma EncodedHead(mem: seq<Byte>, pos: nat, w: int)
    requires EncodedAt(mem, pos, w)
    ensures pos < |mem| && mem[pos] % 0x80 == w % 0x80
    ensures if |EncodeSigned(w)| == 1 then mem[pos] < 0x80 && mem[pos] == w + (if mem[pos] < 0x40 then 0 else 0x80)
            else
              && mem[pos] >= 0x80 && w != 0 && w != -1 && EncodedAt(mem, pos + 1, w / 0x80)
              && |EncodeSigned(w)| == 1 + |EncodeSigned(w / 0x80)|
  {
    var enc := EncodeSigned(w);
    EncodeSignedHead(w);
    assert mem[pos] == mem[pos..pos + |enc|][0] == enc[0];
    if |enc| > 1 {
      assert mem[pos + 1..pos + |enc|] == enc[1..];
    }
  }

  /** At shift 63 only a sign is left to encode. */
  lemma LongIsEarly(shift: nat, acc: nat, w: int, v: int)
    requires shift <= 63 && shift % 7 == 0 && w != 0 && w != -1 && Splits(shift, acc, w, v)
    ensures shift <= 56
  {
    if shift == 63 {
      Pow2InWord(shift);
      SignOnly(acc, w);
    }
  }

  /** The last byte of an encoding. */
  lemma LastByte(mem: seq<Byte>, pos: nat, shift: nat, acc: nat, w: int, v: int)
    requires shift <= 63 && shift % 7 == 0 && Splits(shift, acc, w, v)
    requires pos < |mem| && mem[pos] < 0x80 && mem[pos] == w + (if mem[pos] < 0x40 then 0 else 0x80)
    ensures DeliversSigned(mem, pos, shift, acc, v, pos + 1)
  {
    if shift == 63 {
      LastDigits(mem[pos], w);
      TenthByte(mem, pos, shift, acc, w);
    } else {
      LastByteExtends(mem, pos, shift, acc, w, v);
    }
  }

  lemma {:induction false} GatherSigned(mem: seq<Byte>, pos: nat, shift: nat, acc: nat, w: int, v: int)
    requires shift <= 63 && shift % 7 == 0 && Splits(shift, acc, w, v) && EncodedAt(mem, pos, w)
    ensures DeliversSigned(mem, pos, shift, acc, v, pos + |EncodeSigned(w)|)
    decreases 63 - shift
  {
    EncodedHead(mem, pos, w);
    if |EncodeSigned(w)| == 1 {
      LastByte(mem, pos, shift, acc, w, v);
    } else {
      LongIsEarly(shift, acc, w, v);
      ContinueSigned(mem, pos, shift, acc, w, v, pos + |EncodeSigned(w)|);
      GatherSigned(mem, pos + 1, shift + 7, acc + (w % 0x80) * Pow2(shift), w / 0x80, v);
    }
  }

  /** Decoding the minimal encoding of any signed 64-bit value, at any place in
      a buffer, gives the value back and stops exactly behind it. */
  lemma SignedRoundTrip(before: seq<Byte>, v: int, after: seq<Byte>)
    requires -HALF_WORD <= v < HALF_WORD
    ensures SlebResult(before + EncodeSigned(v) + after, |before|) == Done(v, |before| + |EncodeSigned(v)|)
  {
    var mem := before + EncodeSigned(v) + after;
    assert mem[|before|..|before| + |EncodeSigned(v)|] == EncodeSigned(v);
    assert Pow2(0) == 1;
    GatherSigned(mem, |before|, 0, 0, v, v);
  }
}
