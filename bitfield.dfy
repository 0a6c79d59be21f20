/**
 * Bit fields inside a machine word held as a natural number.
 *
 * `(w >> s) & mask(k)` reads the k-bit field at bit s; `(w & !(mask(k) << s))
 * | ((v & mask(k)) << s)` replaces it. The packed headers of the codec are
 * built from these two operations, and the lemmas here say once and for all
 * that a field reads back what was written and that writing one field leaves
 * every disjoint field alone.
 */
module BitField {
  import opened Common

  /** `(w >> s) & (2^k - 1)`. */
  function Field(w: nat, s: nat, k: nat): (r: nat)
    ensures r < Pow2(k)
  {
    Shr(w, s) % Pow2(k)
  }

  /**
   * `(w & !((2^k - 1) << s)) | ((v & (2^k - 1)) << s)`: the bits of w below s,
   * then the low k bits of v, then the bits of w from s + k on.
   */
  function SetField(w: nat, s: nat, k: nat, v: nat): nat
  {
    w % Pow2(s) + Pow2(s) * (v % Pow2(k) + Pow2(k) * Shr(w, s + k))
  }

  /** The field just written reads back as the low k bits of the value. */
  lemma {:induction false} FieldOfSetField(w: nat, s: nat, k: nat, v: nat)
    ensures Field(SetField(w, s, k, v), s, k) == v % Pow2(k)
  {
    var x := v % Pow2(k) + Pow2(k) * Shr(w, s + k);
    ShrOfSum(w % Pow2(s), x, s);
    ShrOfSum(v % Pow2(k), Shr(w, s + k), k);
  }

  /** Writing one field of an n-bit word leaves any disjoint field unchanged. */
  lemma {:induction false} FieldOfSetFieldOther(w: nat, n: nat, s: nat, k: nat, v: nat, s2: nat, k2: nat)
    requires w < Pow2(n) && s + k <= n && s2 + k2 <= n
    requires s2 + k2 <= s || s + k <= s2
    ensures Field(SetField(w, s, k, v), s2, k2) == Field(w, s2, k2)
  {
    var b := NatToBits(w, n);
    SetFieldBits(w, n, s, k, v);
    var w' := SetField(w, s, k, v);
    FieldBits(w, n, s2, k2);
    FieldBits(w', n, s2, k2);
    SpliceSliceOther(b, s, NatToBits(v, k), s2, k2);
  }

  /** Writing a field keeps an n-bit word within n bits. */
  lemma {:induction false} SetFieldBound(w: nat, n: nat, s: nat, k: nat, v: nat)
    requires w < Pow2(n) && s + k <= n
    ensures SetField(w, s, k, v) < Pow2(n)
  {
    SetFieldBits(w, n, s, k, v);
  }

  /** A field of the all-zero word is zero. */
  lemma {:induction false} FieldOfZero(s: nat, k: nat)
    ensures Field(0, s, k) == 0
  {
    DivModOf(0, Pow2(s), 0);
  }

  // ---------------------------------------------------------------------
  // Bitwise or / and, bit by bit from the least significant.

  /** `a | b`. */
  function BitOr(a: nat, b: nat): nat
  {
    if a == 0 then b
    else if b == 0 then a
    else (if a % 2 == 1 || b % 2 == 1 then 1 else 0) + 2 * BitOr(a / 2, b / 2)
  }

  /** `x << k`, with no bits lost. */
  function Shl(x: nat, k: nat): nat
  {
    Pow2(k) * x
  }

  /** `a & b`. */
  function BitAnd(a: nat, b: nat): (r: nat)
    ensures r <= a
  {
    if a == 0 || b == 0 then 0
    else (if a % 2 == 1 && b % 2 == 1 then 1 else 0) + 2 * BitAnd(a / 2, b / 2)
  }

  /** Splitting lo + 2^a * hi at its lowest bit, for a > 0. */
  lemma {:induction false} HalfStep(x: nat, lo: nat, hi: nat, a: nat)
    requires a > 0 && lo < Pow2(a) && x == lo + Pow2(a) * hi
    ensures x % 2 == lo % 2 && x / 2 == lo / 2 + Pow2(a - 1) * hi
    ensures lo / 2 < Pow2(a - 1)
  {
    var h := lo / 2 + Pow2(a - 1) * hi;
    assert x == lo % 2 + 2 * h;
    DivModOf(h, 2, lo % 2);
  }

  /**
   * Or-ing a value shifted above the bits of another is adding it: this is
   * how every `lo | (hi << k)` of the codec assembles a word.
   */
  lemma {:induction false} OrDisjoint(lo: nat, hi: nat, k: nat)
    requires lo < Pow2(k)
    ensures BitOr(lo, Pow2(k) * hi) == lo + Pow2(k) * hi
  {
    var x := lo + Pow2(k) * hi;
    if lo == 0 || Pow2(k) * hi == 0 {
    } else {
      HalfStep(x, lo, hi, k);
      var b := Pow2(k) * hi;
      HalfStep(b, 0, hi, k);
      OrDisjoint(lo / 2, hi, k - 1);
    }
  }

  // ---------------------------------------------------------------------
  // Fields of shifted, truncated and concatenated words.

  lemma {:induction false} ShrTwice(x: nat, a: nat, b: nat)
    ensures Shr(Shr(x, a), b) == Shr(x, a + b)
  {
    Pow2Add(a, b);
    DivDiv(x, Pow2(a), Pow2(b));
  }

  /** A field at a + b of x is the field at b of x shifted right by a. */
  lemma {:induction false} FieldShr(x: nat, a: nat, b: nat, k: nat)
    ensures Field(x, a + b, k) == Field(Shr(x, a), b, k)
  {
    ShrTwice(x, a, b);
  }

  /** Truncating x to p bits does not change a field that lies below bit p. */
  lemma {:induction false} FieldMod(x: nat, p: nat, s: nat, k: nat)
    requires s + k <= p
    ensures Field(x % Pow2(p), s, k) == Field(x, s, k)
  {
    var y := Shr(x, s);
    Pow2Add(s, p - s);
    DivDiv(x, Pow2(s), Pow2(p - s));
    ShrOfSum(x % Pow2(s), y % Pow2(p - s), s);
    Pow2Add(k, p - s - k);
    ModMod(y, Pow2(k), Pow2(p - s - k));
  }

  /** A field of a field. */
  lemma {:induction false} FieldOfField(x: nat, a: nat, m: nat, b: nat, k: nat)
    requires b + k <= m
    ensures Field(Field(x, a, m), b, k) == Field(x, a + b, k)
  {
    FieldMod(Shr(x, a), m, b, k);
    FieldShr(x, a, b, k);
  }

  /** A u16 stored as two little-endian bytes reads back as itself. */
  lemma {:induction false} U16RoundTrip(x: u16)
    ensures LeValue(LeBytes(x, 2)) == x
  {
    Pow2Values();
    LeValueOfLeBytes(x, 2);
    DivModOf(0, TWO16, x);
  }

  /** The k-bit field at 0 of a k-bit number is the number. */
  lemma {:induction false} FieldWhole(x: nat, k: nat)
    requires x < Pow2(k)
    ensures Field(x, 0, k) == x
  {
    DivModOf(0, Pow2(k), x);
  }

  /** The bits of an n-bit number from n on are zero. */
  lemma {:induction false} FieldAbove(x: nat, n: nat, s: nat, k: nat)
    requires x < Pow2(n) && n <= s
    ensures Field(x, s, k) == 0
  {
    Pow2Mono(n, s);
    DivModOf(0, Pow2(s), x);
  }

  /** A field below bit p of x == lo + 2^p * hi belongs to lo. */
  lemma {:induction false} FieldLow(x: nat, lo: nat, hi: nat, p: nat, s: nat, k: nat)
    requires lo < Pow2(p) && s + k <= p && x == lo + Pow2(p) * hi
    ensures Field(x, s, k) == Field(lo, s, k)
  {
    SplitAt(x, lo, hi, p);
    FieldMod(x, p, s, k);
    DivModOf(0, Pow2(p), lo);
    FieldMod(lo, p, s, k);
  }

  /** A field from bit p on of x == lo + 2^p * hi belongs to hi. */
  lemma {:induction false} FieldHigh(x: nat, lo: nat, hi: nat, p: nat, s: nat, k: nat)
    requires lo < Pow2(p) && x == lo + Pow2(p) * hi
    ensures Field(x, p + s, k) == Field(hi, s, k)
  {
    FieldShr(x, p, s, k);
    SplitAt(x, lo, hi, p);
  }

  // ---------------------------------------------------------------------
  // Little-endian byte strings as one number.

  lemma {:induction false} LeValueAppend(a: seq<u8>, b: seq<u8>)
    ensures LeValue(a + b) == LeValue(a) + Pow2(8 * |a|) * LeValue(b)
  {
    BitsToNatOfBytes(a + b);
    BitsToNatOfBytes(a);
    BitsToNatOfBytes(b);
    BytesToBitsAppend(a, b);
    BitsToNatAppend(BytesToBits(a), BytesToBits(b));
  }

  /** One more byte on top: bytes b..b + i + 1 are bytes b..b + i and then byte b + i. */
  lemma {:induction false} LeValueExtend(data: seq<u8>, b: nat, i: nat)
    requires b + i < |data|
    ensures LeValue(data[b..b + i + 1]) == LeValue(data[b..b + i]) + Pow2(8 * i) * data[b + i]
  {
    var lo := data[b..b + i];
    assert data[b..b + i + 1] == lo + [data[b + i]];
    LeValueAppend(lo, [data[b + i]]);
    assert LeValue([data[b + i]]) == data[b + i];
  }

  /** A byte string cut at i: the first i bytes, then the rest above them. */
  lemma {:induction false} LeSplitAt(bs: seq<u8>, i: nat)
    requires i <= |bs|
    ensures LeValue(bs) == LeValue(bs[..i]) + Pow2(8 * i) * LeValue(bs[i..])
  {
    var a, b := bs[..i], bs[i..];
    assert bs == a + b;
    LeValueAppend(a, b);
  }

  /** Dropping i bytes shifts the value right by 8 * i bits. */
  lemma {:induction false} LeSuffix(bs: seq<u8>, i: nat)
    requires i <= |bs|
    ensures Shr(LeValue(bs), 8 * i) == LeValue(bs[i..])
  {
    LeSplitAt(bs, i);
    LeValueBound(bs[..i]);
    SplitAt(LeValue(bs), LeValue(bs[..i]), LeValue(bs[i..]), 8 * i);
  }

  lemma {:induction false} LeValueBound(bs: seq<u8>)
    ensures LeValue(bs) < Pow2(8 * |bs|)
  {
  }

  /** Keeping i bytes truncates the value to 8 * i bits. */
  lemma {:induction false} LePrefix(bs: seq<u8>, i: nat)
    requires i <= |bs|
    ensures LeValue(bs) % Pow2(8 * i) == LeValue(bs[..i])
  {
    LeSplitAt(bs, i);
    LeValueBound(bs[..i]);
    SplitAt(LeValue(bs), LeValue(bs[..i]), LeValue(bs[i..]), 8 * i);
  }

  /**
   * Reading len bits at bit off of the bytes i..j is reading them at bit
   * 8 * i + off of the whole string, as long as they lie inside i..j.
   */
  lemma {:induction false} FieldLe(bs: seq<u8>, i: nat, j: nat, off: nat, len: nat)
    requires i <= j <= |bs| && off + len <= 8 * (j - i)
    ensures Field(LeValue(bs), 8 * i + off, len) == Field(LeValue(bs[i..j]), off, len)
  {
    assert Shr(LeValue(bs), 8 * i) == LeValue(bs[i..]) by { LeSuffix(bs, i); }
    assert LeValue(bs[i..]) == LeValue(bs[i..j]) + Pow2(8 * (j - i)) * LeValue(bs[j..]) by {
      LeSliceSplit(bs, i, j);
    }
    assert LeValue(bs[i..j]) < Pow2(8 * (j - i)) by { LeValueBound(bs[i..j]); }
    FieldInside(LeValue(bs), LeValue(bs[i..]), LeValue(bs[i..j]), LeValue(bs[j..]), 8 * i, 8 * (j - i), off, len);
  }

  /** x shifted right by a is mid + 2^p * hi: a field inside mid is read from mid. */
  lemma {:induction false} FieldInside(x: nat, tail: nat, mid: nat, hi: nat, a: nat, p: nat, off: nat, len: nat)
    requires Shr(x, a) == tail && tail == mid + Pow2(p) * hi
    requires mid < Pow2(p) && off + len <= p
    ensures Field(x, a + off, len) == Field(mid, off, len)
  {
    FieldShr(x, a, off, len);
    FieldLow(tail, mid, hi, p, off, len);
  }

  lemma {:induction false} LeSliceSplit(bs: seq<u8>, i: nat, j: nat)
    requires i <= j <= |bs|
    ensures LeValue(bs[i..]) == LeValue(bs[i..j]) + Pow2(8 * (j - i)) * LeValue(bs[j..])
  {
    var a, b := bs[i..j], bs[j..];
    assert bs[i..] == a + b;
    LeValueAppend(a, b);
  }

  /** The 64-bit word at byte i, with the bytes past the end read as zero. */
  lemma {:induction false} FieldLeTail(bs: seq<u8>, i: nat)
    requires i <= |bs| && |bs| - i <= 8
    ensures Field(LeValue(bs), 8 * i, 64) == LeValue(bs[i..])
  {
    var x, t := LeValue(bs), LeValue(bs[i..]);
    LeSuffix(bs, i);
    LeValueBound(bs[i..]);
    Pow2Mono(8 * (|bs| - i), 64);
    FieldSmall(x, 8 * i, t, 64);
  }

  /** When x shifted right by a is below 2^k, the k-bit field at a is all of it. */
  lemma {:induction false} FieldSmall(x: nat, a: nat, t: nat, k: nat)
    requires Shr(x, a) == t && t < Pow2(k)
    ensures Field(x, a, k) == t
  {
    DivModOf(0, Pow2(k), t);
  }

  /** Past the last byte every bit reads as zero. */
  lemma {:induction false} FieldLePastEnd(bs: seq<u8>, s: nat, k: nat)
    requires 8 * |bs| <= s
    ensures Field(LeValue(bs), s, k) == 0
  {
    FieldAbove(LeValue(bs), 8 * |bs|, s, k);
  }

  // ---------------------------------------------------------------------
  // The bit-sequence view used by the proofs above.

  /** A field is the number spelled by a slice of the word's bits. */
  lemma {:induction false} FieldBits(w: nat, n: nat, s: nat, k: nat)
    requires w < Pow2(n) && s + k <= n
    ensures Field(w, s, k) == BitsToNat(NatToBits(w, n)[s..s + k])
  {
    var b := NatToBits(w, n);
    BitsToNatOfNatToBits(w, n);
    DivModOf(0, Pow2(n), w);
    BitsSlice(b, s, k);
  }

  /** Writing a field splices the value's bits into the word's bits. */
  lemma {:induction false} SetFieldBits(w: nat, n: nat, s: nat, k: nat, v: nat)
    requires w < Pow2(n) && s + k <= n
    ensures SetField(w, s, k, v) < Pow2(n)
    ensures NatToBits(SetField(w, s, k, v), n)
         == NatToBits(w, n)[..s] + NatToBits(v, k) + NatToBits(w, n)[s + k..]
  {
    var m := n - s - k;
    SetFieldParts(w, n, s, k, v);
    WordCuts(w, n, s, k);
    NatToBitsMod(v, k);
    SeqAssoc(NatToBits(w % Pow2(s), s), NatToBits(v % Pow2(k), k), NatToBits(Shr(w, s + k), m));
  }

  /** The new word, in bits, is the low part of w, the value, the high part of w. */
  lemma {:induction false} SetFieldParts(w: nat, n: nat, s: nat, k: nat, v: nat)
    requires w < Pow2(n) && s + k <= n
    ensures SetField(w, s, k, v) < Pow2(n)
    ensures NatToBits(SetField(w, s, k, v), n)
         == NatToBits(w % Pow2(s), s) + (NatToBits(v % Pow2(k), k) + NatToBits(Shr(w, s + k), n - s - k))
  {
    HighBound(w, n, s + k);
    ThreeParts(w % Pow2(s), v % Pow2(k), Shr(w, s + k), s, k, n - s - k);
  }

  /** Three digits lo, mid, hi of widths s, k, m form one (s + k + m)-bit number. */
  lemma {:induction false} ThreeParts(lo: nat, mid: nat, hi: nat, s: nat, k: nat, m: nat)
    requires lo < Pow2(s) && mid < Pow2(k) && hi < Pow2(m)
    ensures lo + Pow2(s) * (mid + Pow2(k) * hi) < Pow2(s + k + m)
    ensures NatToBits(lo + Pow2(s) * (mid + Pow2(k) * hi), s + k + m)
         == NatToBits(lo, s) + (NatToBits(mid, k) + NatToBits(hi, m))
  {
    TwoParts(mid, hi, k, m);
    TwoParts(lo, mid + Pow2(k) * hi, s, k + m);
    assert s + (k + m) == s + k + m;
  }

  /** Two bit strings side by side: the number below 2^(a+b) whose bits they are. */
  lemma {:induction false} TwoParts(lo: nat, hi: nat, a: nat, b: nat)
    requires lo < Pow2(a) && hi < Pow2(b)
    ensures lo + Pow2(a) * hi < Pow2(a + b)
    ensures NatToBits(lo + Pow2(a) * hi, a + b) == NatToBits(lo, a) + NatToBits(hi, b)
  {
    assert lo + Pow2(a) * hi < Pow2(a + b) by {
      SumBound(lo, hi, Pow2(a), Pow2(b));
      Pow2Add(a, b);
    }
    MulComm(Pow2(a), hi);
    NatToBitsConcat(lo, hi, a, b);
  }


  /** The bits of w below s, and from s + k on, as numbers. */
  lemma {:induction false} WordCuts(w: nat, n: nat, s: nat, k: nat)
    requires s + k <= n
    ensures NatToBits(w, n)[..s] == NatToBits(w % Pow2(s), s)
    ensures NatToBits(w, n)[s + k..] == NatToBits(Shr(w, s + k), n - s - k)
  {
    NatToBitsMod(w, s);
    NatToBitsSplit(w, s, n - s);
    NatToBitsSplit(w, s + k, n - s - k);
    PrefixOfConcat(NatToBits(w, s), NatToBits(Shr(w, s), n - s));
    SuffixOfConcat(NatToBits(w, s + k), NatToBits(Shr(w, s + k), n - s - k));
  }

  lemma {:induction false} HighBound(w: nat, n: nat, a: nat)
    requires w < Pow2(n) && a <= n
    ensures Shr(w, a) < Pow2(n - a)
  {
    var q := Shr(w, a);
    Pow2Add(a, n - a);
    if q >= Pow2(n - a) {
      assert w == Pow2(a) * q + w % Pow2(a);
      MulMono(Pow2(a), Pow2(n - a), q);
      assert false;
    }
  }

  lemma {:induction false} MulMono(p: nat, a: nat, b: nat)
    requires a <= b
    ensures p * a <= p * b
  {
  }

  lemma {:induction false} MulComm(a: int, b: int)
    ensures a * b == b * a
  {
  }

  /** Two digits in mixed radix stay below the product of the radices. */
  lemma {:induction false} SumBound(a: nat, b: nat, p: nat, q: nat)
    requires a < p && b < q
    ensures a + p * b < p * q
  {
    MulMono(p, b, q - 1);
    assert p * (q - 1) == p * q - p;
  }

  lemma {:induction false} PrefixOfConcat<T>(x: seq<T>, y: seq<T>)
    ensures (x + y)[..|x|] == x
  {
  }

  lemma {:induction false} SuffixOfConcat<T>(x: seq<T>, y: seq<T>)
    ensures (x + y)[|x|..] == y
  {
  }

  /** Splicing y into b at s leaves the slices of b that avoid y alone. */
  lemma {:induction false} SpliceSliceOther<T>(b: seq<T>, s: nat, y: seq<T>, s2: nat, k2: nat)
    requires s + |y| <= |b| && s2 + k2 <= |b|
    requires s2 + k2 <= s || s + |y| <= s2
    ensures (b[..s] + y + b[s + |y|..])[s2..s2 + k2] == b[s2..s2 + k2]
  {
    var c := b[..s] + y + b[s + |y|..];
    assert |c| == |b|;
    forall i | s2 <= i < s2 + k2
      ensures c[i] == b[i]
    {
    }
  }
}
