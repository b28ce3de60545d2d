/** Compact identifiers over the 26 lower-case letters: a millisecond timestamp,
    a per-process sequence counter and random filler bits are packed into one
    integer, which is written out as a fixed number of base-26 letters.
    The clock and the random source are parameters; the counter is the field
    of a Generator object. */
module HybridClockUUID {
  import opened Wrappers

  /** Lengths below this are refused. */
  const MinLength := 5
  /** Length used when the caller gives none. */
  const DefaultLength := 10
  /** The counter is cut to its low 18 bits (the mask 0x3FFFF). */
  const SequenceMask := 0x3FFFF
  /** The encoding alphabet; position d holds the letter for digit d. */
  const Chars: string := "abcdefghijklmnopqrstuvwxyz"

  datatype Error = IllegalArgument(message: string)

  function Pow(b: nat, n: nat): (r: nat)
    ensures b > 0 ==> r > 0
  {
    if n == 0 then 1 else b * Pow(b, n - 1)
  }

  function Min(a: int, b: int): int { if a <= b then a else b }

  // ---------------------------------------------------------------------
  // Letters and digits

  predicate IsLetter(c: char) { 'a' <= c <= 'z' }

  predicate AllLetters(s: string) { forall i :: 0 <= i < |s| ==> IsLetter(s[i]) }

  /** The letter that the alphabet table holds for digit d. */
  function Letter(d: int): (c: char)
    requires 0 <= d < 26
    ensures IsLetter(c) && c as int - 'a' as int == d
  {
    Chars[d]
  }

  /** The digit a letter stands for (the source's `c - 'a'`). */
  function Digit(c: char): (d: int)
    requires IsLetter(c)
    ensures 0 <= d < 26 && Letter(d) == c
  {
    c as int - 'a' as int
  }

  // ---------------------------------------------------------------------
  // Bit budgets. The source truncates the doubles length*4.7*0.5,
  // length*4.7*0.3 and length*4.7; for the lengths 5..13 modelled here
  // these equal the exact floors below.

  predicate SupportedLength(length: int) { MinLength <= length <= 13 }

  function TotalBits(length: int): int
    requires SupportedLength(length)
  {
    47 * length / 10
  }

  function TimestampBits(length: int): int
    requires SupportedLength(length)
  {
    Min(28, 47 * length / 20)
  }

  function SequenceBits(length: int): int
    requires SupportedLength(length)
  {
    Min(18, 141 * length / 100)
  }

  function RandomBits(length: int): int
    requires SupportedLength(length)
  {
    TotalBits(length) - TimestampBits(length) - SequenceBits(length)
  }

  /** Number of random bytes drawn: the random bits rounded up to whole bytes. */
  function RandomByteCount(length: int): int
    requires SupportedLength(length)
  {
    (RandomBits(length) + 7) / 8
  }

  /** The three budgets are positive, capped at 28 and 18 bits, and together
      fill the floor of 4.7 bits per letter; the default length splits 23/14/10. */
  lemma BitBudgets(length: int)
    requires SupportedLength(length)
    ensures 0 < TimestampBits(length) <= 28
    ensures 0 < SequenceBits(length) <= 18
    ensures 0 < RandomBits(length) <= 15
    ensures TimestampBits(length) + SequenceBits(length) + RandomBits(length) == TotalBits(length) <= 61
    ensures 1 <= RandomByteCount(length) <= 2
    ensures length == DefaultLength ==>
      TimestampBits(length) == 23 && SequenceBits(length) == 14 && RandomBits(length) == 10
  {
  }

  /** The powers of two that bound the packed values. */
  lemma PowersOfTwo()
    ensures Pow(2, 23) == 8388608
    ensures Pow(2, 28) == 268435456
    ensures Pow(2, 32) == 4294967296
    ensures Pow(2, 37) == 137438953472
    ensures Pow(2, 42) == 4398046511104
    ensures Pow(2, 47) == 140737488355328
    ensures Pow(2, 51) == 2251799813685248
    ensures Pow(2, 56) == 72057594037927936
    ensures Pow(2, 61) == 2305843009213693952
  {
    assert Pow(2, 12) == 4096;
    PowAdd(2, 12, 11);
    PowAdd(2, 23, 5);
    PowAdd(2, 28, 4);
    PowAdd(2, 32, 5);
    PowAdd(2, 37, 5);
    PowAdd(2, 42, 5);
    PowAdd(2, 47, 4);
    PowAdd(2, 51, 5);
    PowAdd(2, 56, 5);
  }

  /** The powers of 26 that count the strings of each supported length. */
  lemma PowersOf26()
    ensures Pow(26, 5) == 11881376
    ensures Pow(26, 6) == 308915776
    ensures Pow(26, 7) == 8031810176
    ensures Pow(26, 8) == 208827064576
    ensures Pow(26, 9) == 5429503678976
    ensures Pow(26, 10) == 141167095653376
    ensures Pow(26, 11) == 3670344486987776
    ensures Pow(26, 12) == 95428956661682176
    ensures Pow(26, 13) == 2481152873203736576
  {
    assert Pow(26, 5) == 11881376;
    PowAdd(26, 5, 1);
    PowAdd(26, 6, 1);
    PowAdd(26, 7, 1);
    PowAdd(26, 8, 1);
    PowAdd(26, 9, 1);
    PowAdd(26, 10, 1);
    PowAdd(26, 11, 1);
    PowAdd(26, 12, 1);
  }

  /** The bits fit into the letters: 2^TotalBits(length) <= 26^length,
      because 4.7 is below log2(26). */
  lemma BitsFitInLetters(length: int)
    requires SupportedLength(length)
    ensures Pow(2, TotalBits(length)) <= Pow(26, length)
  {
    TwoPowBelow26Pow(length);
  }

  lemma TwoPowBelow26Pow(length: int)
    requires 5 <= length <= 13
    ensures Pow(2, 47 * length / 10) <= Pow(26, length)
  {
    PowersOfTwo();
    PowersOf26();
    if length == 5 {
      assert 47 * length / 10 == 23;
    } else if length == 6 {
      assert 47 * length / 10 == 28;
    } else if length == 7 {
      assert 47 * length / 10 == 32;
    } else if length == 8 {
      assert 47 * length / 10 == 37;
    } else if length == 9 {
      assert 47 * length / 10 == 42;
    } else if length == 10 {
      assert 47 * length / 10 == 47;
    } else if length == 11 {
      assert 47 * length / 10 == 51;
    } else if length == 12 {
      assert 47 * length / 10 == 56;
    } else {
      assert 47 * length / 10 == 61;
    }
  }

  // ---------------------------------------------------------------------
  // Random bytes to a number

  /** Big-endian value of a byte string. */
  function BigEndian(bytes: seq<bv8>): (v: nat)
    ensures v < Pow(256, |bytes|)
  {
    if bytes == [] then 0
    else
      var init := bytes[..|bytes| - 1];
      BigEndian(init) * 256 + bytes[|bytes| - 1] as int
  }

  /** Shifts up to eight random bytes into one value, most significant first. */
  method RandomValue(buffer: seq<bv8>) returns (v: int)
    ensures v == BigEndian(buffer[..Min(|buffer|, 8)])
  {
    v := 0;
    var i := 0;
    while i < |buffer| && i < 8
      invariant 0 <= i <= Min(|buffer|, 8)
      invariant v == BigEndian(buffer[..i])
    {
      assert buffer[..i + 1][..i] == buffer[..i];
      v := v * 256 + buffer[i] as int;
      i := i + 1;
    }
  }

  /** The random part: the drawn bytes masked to the random bit budget. */
  function RandomPart(length: int, entropy: seq<bv8>): (r: int)
    requires SupportedLength(length)
    ensures 0 <= r < Pow(2, RandomBits(length))
  {
    BigEndian(entropy[..Min(|entropy|, 8)]) % Pow(2, RandomBits(length))
  }

  /** The packed value: the masked timestamp in the high bits, then the masked
      sequence, then the random part. Masking a two's-complement long with
      2^k - 1 is the Euclidean remainder modulo 2^k, and an OR of values in
      disjoint bit ranges is their sum. */
  function Combine(length: int, timestamp: int, sequence: int, random: int): int
    requires SupportedLength(length)
  {
    var sb, rb := SequenceBits(length), RandomBits(length);
    (timestamp % Pow(2, TimestampBits(length))) * Pow(2, sb + rb)
      + (sequence % Pow(2, sb)) * Pow(2, rb)
      + random
  }

  lemma PowAdd(b: nat, m: nat, n: nat)
    ensures Pow(b, m + n) == Pow(b, m) * Pow(b, n)
  {
    if m > 0 {
      PowAdd(b, m - 1, n);
      assert Pow(b, m + n) == b * Pow(b, m - 1 + n);
    }
  }

  /** Euclidean division of q * m + a by m, for 0 <= a < m. */
  lemma DivModUnique(q: int, m: int, a: int)
    requires 0 < m && 0 <= a < m
    ensures (q * m + a) / m == q && (q * m + a) % m == a
  {
    var x := q * m + a;
    var q', a' := x / m, x % m;
    assert q' * m + a' == x;
    assert (q - q') * m == a' - a;
    if q - q' >= 1 {
      MulMono(1, q - q', m);
    } else if q - q' <= -1 {
      MulMono(1, q' - q, m);
    }
  }

  lemma {:induction false} MulMono(x: int, y: int, m: nat)
    requires x <= y
    ensures x * m <= y * m
  {
    if m > 0 {
      MulMono(x, y, m - 1);
      assert x * m == x * (m - 1) + x;
      assert y * m == y * (m - 1) + y;
    }
  }

  lemma MulLess(a: int, b: int, m: nat)
    requires a < b
    ensures a * m + m <= b * m
  {
    MulMono(a + 1, b, m);
  }

  /** Three fields laid side by side: t above s above r, with s below S and
      r below R, can each be read back, and the whole stays below T * S * R. */
  lemma Layout(t: int, s: int, r: int, T: int, S: int, R: int)
    requires 0 <= t < T && 0 <= s < S && 0 <= r < R
    ensures var c := t * (S * R) + s * R + r;
      && 0 <= c < T * (S * R)
      && c / (S * R) == t
      && (c / R) % S == s
      && c % R == r
  {
    var c := t * (S * R) + s * R + r;
    MulLess(s, S, R);
    DivModUnique(t, S * R, s * R + r);
    assert c == (t * S + s) * R + r;
    DivModUnique(t * S + s, R, r);
    DivModUnique(t, S, s);
    MulLess(t, T, S * R);
  }

  /** The three parts occupy disjoint bit ranges: each can be read back from
      the packed value, and the packed value is below 2^TotalBits(length). */
  lemma CombineSeparates(length: int, timestamp: int, sequence: int, random: int)
    requires SupportedLength(length)
    requires 0 <= random < Pow(2, RandomBits(length))
    ensures var c, sb, rb := Combine(length, timestamp, sequence, random), SequenceBits(length), RandomBits(length);
      && 0 <= c < Pow(2, TotalBits(length))
      && c / Pow(2, sb + rb) == timestamp % Pow(2, TimestampBits(length))
      && (c / Pow(2, rb)) % Pow(2, sb) == sequence % Pow(2, sb)
      && c % Pow(2, rb) == random
  {
    BitBudgets(length);
    var tb, sb, rb := TimestampBits(length), SequenceBits(length), RandomBits(length);
    var T, S, R := Pow(2, tb), Pow(2, sb), Pow(2, rb);
    PowAdd(2, sb, rb);
    PowAdd(2, tb, sb + rb);
    assert Pow(2, TotalBits(length)) == T * (S * R);
    Layout(timestamp % T, sequence % S, random, T, S, R);
  }

  // ---------------------------------------------------------------------
  // Base-26 rendering

  /** The low n base-26 digits of value as letters, most significant first. */
  function Encode(value: nat, n: nat): (s: string)
    ensures |s| == n && AllLetters(s)
  {
    if n == 0 then [] else Encode(value / 26, n - 1) + [Letter(value % 26)]
  }

  /** What is left of value after n digits have been taken off. */
  function Rest(value: nat, n: nat): nat
  {
    if n == 0 then value else Rest(value / 26, n - 1)
  }

  /** Reads letters back as a big-endian base-26 number. */
  function Decode(s: string): (v: nat)
    requires AllLetters(s)
    ensures v < Pow(26, |s|)
  {
    if s == [] then 0
    else
      var init := s[..|s| - 1];
      Decode(init) * 26 + Digit(s[|s| - 1])
  }

  /** One XOR-fold step: the letter's digit XOR the leftover digit, modulo 26. */
  function Mix(c: char, idx: int): (r: char)
    requires IsLetter(c) && 0 <= idx < 26
    ensures IsLetter(r)
  {
    Letter(((Digit(c) as bv8 ^ idx as bv8) as int) % 26)
  }

  /** The overflow fold: while digits are left over and fewer than limit
      letters have been touched, mixes the next leftover digit into letter i. */
  function Fold(s: string, leftover: nat, i: nat, limit: nat): (r: string)
    requires AllLetters(s) && limit <= |s|
    ensures |r| == |s| && AllLetters(r)
    decreases limit - i
  {
    if i < limit && leftover > 0 then
      Fold(s[i := Mix(s[i], leftover % 26)], leftover / 26, i + 1, limit)
    else s
  }

  /** The string toBase26 produces for value and length. */
  function Base26(value: nat, length: nat): (s: string)
    ensures |s| == length && AllLetters(s)
  {
    Fold(Encode(value, length), Rest(value, length), 0, Min(8, length))
  }

  /** The letters and the leftover together give back the value, and the
      letters alone are below 26^n. */
  lemma {:induction false} EncodeSplits(value: nat, n: nat)
    ensures value == Decode(Encode(value, n)) + Rest(value, n) * Pow(26, n)
  {
    if n > 0 {
      var q := value / 26;
      EncodeSplits(q, n - 1);
      var e := Encode(value, n);
      assert e[..n - 1] == Encode(q, n - 1);
      assert e[n - 1] == Letter(value % 26);
      var d, r, p := Decode(Encode(q, n - 1)), Rest(q, n - 1), Pow(26, n - 1);
      assert Decode(e) == d * 26 + value % 26;
      RegroupDigit(value, q, d, r, p);
    }
  }

  /** value = 26q + m with q = d + r*p regroups as (26d + m) + r*(26p). */
  lemma RegroupDigit(value: int, q: int, d: int, r: int, p: int)
    requires q == value / 26
    requires q == d + r * p
    ensures value == (d * 26 + value % 26) + r * (26 * p)
  {
    assert value == q * 26 + value % 26;
    assert (d + r * p) * 26 == d * 26 + r * (26 * p);
  }

  /** Below 26^length nothing is left over, so the fold does nothing and the
      output reads back as the value. */
  lemma Base26RoundTrip(value: nat, length: nat)
    requires value < Pow(26, length)
    ensures Rest(value, length) == 0
    ensures Base26(value, length) == Encode(value, length)
    ensures Decode(Base26(value, length)) == value
  {
    EncodeSplits(value, length);
  }

  /** Distinct values below 26^length render as distinct strings. */
  lemma Base26Injective(v: nat, w: nat, length: nat)
    requires v < Pow(26, length) && w < Pow(26, length)
    requires Base26(v, length) == Base26(w, length)
    ensures v == w
  {
    Base26RoundTrip(v, length);
    Base26RoundTrip(w, length);
  }

  /** toBase26's first loop: writes the low digits of value into buffer,
      right to left, and returns what is left over. */
  method EncodeInto(buffer: array<char>, value: nat) returns (v: nat)
    modifies buffer
    ensures buffer[..] == Encode(value, buffer.Length)
    ensures v == Rest(value, buffer.Length)
  {
    v := value;
    var i := buffer.Length - 1;
    while i >= 0
      invariant -1 <= i < buffer.Length
      invariant Encode(value, buffer.Length) == Encode(v, i + 1) + buffer[i + 1..]
      invariant Rest(value, buffer.Length) == Rest(v, i + 1)
    {
      ghost var done := buffer[i + 1..];
      assert Encode(v, i + 1) == Encode(v / 26, i) + [Letter(v % 26)];
      buffer[i] := Chars[v % 26];
      assert buffer[i..] == [Letter(v % 26)] + done;
      v := v / 26;
      i := i - 1;
    }
    assert buffer[0..] == buffer[..];
  }

  /** toBase26's second loop: mixes the leftover into the first letters. */
  method FoldInto(buffer: array<char>, leftover: nat, limit: nat)
    requires AllLetters(buffer[..]) && limit <= buffer.Length
    modifies buffer
    ensures buffer[..] == Fold(old(buffer[..]), leftover, 0, limit)
  {
    if leftover == 0 {
      return;
    }
    var v := leftover;
    var j := 0;
    while j < limit
      invariant 0 <= j <= limit && v > 0
      invariant AllLetters(buffer[..])
      invariant Fold(old(buffer[..]), leftover, 0, limit) == Fold(buffer[..], v, j, limit)
    {
      var idx := v % 26;
      ghost var before := buffer[..];
      buffer[j] := Mix(buffer[j], idx);
      assert buffer[..] == before[j := Mix(before[j], idx)];
      v := v / 26;
      if v == 0 {
        return;
      }
      j := j + 1;
    }
  }

  /** Renders value as exactly length letters, filling a buffer right to left
      and folding any leftover into the first letters. */
  method ToBase26(value: nat, length: nat) returns (r: string)
    ensures r == Base26(value, length)
    ensures |r| == length && AllLetters(r)
    ensures value < Pow(26, length) ==> Decode(r) == value
  {
    var buffer := new char[length];
    var v := EncodeInto(buffer, value);
    FoldInto(buffer, v, Min(8, length));
    r := buffer[..];
    if value < Pow(26, length) {
      Base26RoundTrip(value, length);
    }
  }

  // ---------------------------------------------------------------------
  // The generator

  /** The identifier produced for one call that saw the given clock reading,
      counter value and random bytes. */
  function Id(length: int, timestamp: int, count: int, entropy: seq<bv8>): string
    requires SupportedLength(length)
  {
    var sequence := count % (SequenceMask + 1);
    var c := Combine(length, timestamp, sequence, RandomPart(length, entropy));
    CombineSeparates(length, timestamp, sequence, RandomPart(length, entropy));
    Base26(c, length)
  }

  /** Every identifier is length letters, and reading it back gives the packed
      value from which timestamp, sequence and random bits can be recovered. */
  lemma IdDecodes(length: int, timestamp: int, count: int, entropy: seq<bv8>)
    requires SupportedLength(length)
    ensures var c := Combine(length, timestamp, count % (SequenceMask + 1), RandomPart(length, entropy));
      && |Id(length, timestamp, count, entropy)| == length
      && AllLetters(Id(length, timestamp, count, entropy))
      && Decode(Id(length, timestamp, count, entropy)) == c
  {
    var sequence := count % (SequenceMask + 1);
    var c := Combine(length, timestamp, sequence, RandomPart(length, entropy));
    CombineSeparates(length, timestamp, sequence, RandomPart(length, entropy));
    BitsFitInLetters(length);
    Base26RoundTrip(c, length);
  }

  /** Two calls of the same length give the same identifier only if their
      timestamps agree in the low TimestampBits, their sequences in the low
      SequenceBits and their random parts exactly: within one millisecond and
      with equal random bits, counters that differ modulo 2^SequenceBits
      cannot collide. */
  lemma {:induction false} IdSeparates(length: int, t1: int, n1: int, e1: seq<bv8>, t2: int, n2: int, e2: seq<bv8>)
    requires SupportedLength(length)
    requires Id(length, t1, n1, e1) == Id(length, t2, n2, e2)
    ensures t1 % Pow(2, TimestampBits(length)) == t2 % Pow(2, TimestampBits(length))
    ensures (n1 % (SequenceMask + 1)) % Pow(2, SequenceBits(length))
         == (n2 % (SequenceMask + 1)) % Pow(2, SequenceBits(length))
    ensures RandomPart(length, e1) == RandomPart(length, e2)
  {
    IdDecodes(length, t1, n1, e1);
    IdDecodes(length, t2, n2, e2);
    CombineSeparates(length, t1, n1 % (SequenceMask + 1), RandomPart(length, e1));
    CombineSeparates(length, t2, n2 % (SequenceMask + 1), RandomPart(length, e2));
  }

  /** The process-wide generator; its counter is the source's static AtomicLong. */
  class Generator {
    var counter: nat

    constructor ()
      ensures counter == 0
    {
      counter := 0;
    }

    /** generate(length): refuses lengths below 5; otherwise bumps the counter
        once and renders the packed value. */
    method Generate(length: int, timestamp: int, entropy: seq<bv8>) returns (r: Result<string, Error>)
      requires length <= 13
      requires MinLength <= length ==> |entropy| == RandomByteCount(length)
      modifies this
      ensures length < MinLength ==> r.Failure? && counter == old(counter)
      ensures MinLength <= length ==>
        && counter == old(counter) + 1
        && r == Success(Id(length, timestamp, counter, entropy))
      ensures r.Success? ==> |r.value| == length && AllLetters(r.value)
    {
      if length < MinLength {
        return Failure(IllegalArgument("UUID length must be at least 5 characters"));
      }
      counter := counter + 1;
      var sequence := counter % (SequenceMask + 1);
      BitBudgets(length);
      var randomBits := RandomBits(length);
      var randomValue := 0;
      if randomBits > 0 {
        randomValue := RandomValue(entropy);
        randomValue := randomValue % Pow(2, randomBits);
      }
      var combined := Combine(length, timestamp, sequence, randomValue);
      CombineSeparates(length, timestamp, sequence, randomValue);
      var s := ToBase26(combined, length);
      r := Success(s);
    }

    /** generate(): the default length 10. */
    method GenerateDefault(timestamp: int, entropy: seq<bv8>) returns (s: string)
      requires |entropy| == RandomByteCount(DefaultLength)
      modifies this
      ensures counter == old(counter) + 1
      ensures s == Id(DefaultLength, timestamp, counter, entropy)
      ensures |s| == DefaultLength && AllLetters(s)
    {
      var r := Generate(DefaultLength, timestamp, entropy);
      s := r.value;
    }
  }
}
