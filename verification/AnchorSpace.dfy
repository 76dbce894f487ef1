/** Anchors and their slots: three base-62 digits, and the probe sequence over the slots. */
module AnchorSpace {
  import opened Options

  const BASE: nat := 62
  const HASH_LEN: nat := 3
  const HASH_SPACE: nat := 238328
  const HASH_PROBE_STRIDE: nat := 3907

  lemma {:induction false} SpaceOfBase()
    ensures HASH_SPACE == BASE * BASE * BASE
    ensures HASH_PROBE_STRIDE == BASE * BASE + BASE + 1
  {
  }

  // ---- digits ----

  /** The alphabet: upper case, lower case, digits. */
  function AlphabetAt(i: nat): char
    requires i < BASE
  {
    if i < 26 then 'A' + i as char else if i < 52 then 'a' + (i - 26) as char else '0' + (i - 52) as char
  }

  /** The position of a character in the alphabet, if it has one. */
  function IndexInAlphabet(c: char): Option<nat> {
    if 'A' <= c <= 'Z' then Some((c as int) - ('A' as int))
    else if 'a' <= c <= 'z' then Some((c as int) - ('a' as int) + 26)
    else if '0' <= c <= '9' then Some((c as int) - ('0' as int) + 52)
    else None
  }

  lemma {:induction false} AlphabetInverse(i: nat, c: char)
    requires i < BASE
    ensures IndexInAlphabet(c) == Some(i) <==> AlphabetAt(i) == c
  {
  }

  /** The last `len` base-62 digits of a slot. */
  function Digits(idx: nat, len: nat): (r: string)
    ensures |r| == len
  {
    if len == 0 then "" else Digits(idx / BASE, len - 1) + [AlphabetAt(idx % BASE)]
  }

  /** The slot that a string of digits names, if every character is a digit. */
  function Slot(digits: string): Option<nat> {
    if digits == "" then Some(0)
    else
      match (Slot(digits[..|digits| - 1]), IndexInAlphabet(digits[|digits| - 1]))
      case (Some(high), Some(low)) => Some(high * BASE + low)
      case _ => None
  }

  function IdxToHash(idx: nat): string {
    Digits(idx, HASH_LEN)
  }

  /** Only the first three characters are read; a shorter string names no slot. */
  function HashToIndex(hash: string): Option<nat> {
    if |hash| < HASH_LEN then None else Slot(hash[..HASH_LEN])
  }

  ghost predicate IsAnchor(hash: string) {
    |hash| == HASH_LEN && HashToIndex(hash).Some?
  }

  function Power(len: nat): nat {
    if len == 0 then 1 else BASE * Power(len - 1)
  }

  lemma {:induction false} SlotOfDigits(idx: nat, len: nat)
    requires idx < Power(len)
    ensures Slot(Digits(idx, len)) == Some(idx)
    decreases len
  {
    if len > 0 {
      assert idx / BASE < Power(len - 1);
      SlotOfDigits(idx / BASE, len - 1);
      AlphabetInverse(idx % BASE, AlphabetAt(idx % BASE));
      assert Digits(idx, len)[..len - 1] == Digits(idx / BASE, len - 1);
    }
  }

  lemma {:induction false} DigitsOfSlot(digits: string)
    requires Slot(digits).Some?
    ensures Slot(digits).value < Power(|digits|)
    ensures Digits(Slot(digits).value, |digits|) == digits
    decreases |digits|
  {
    if digits != "" {
      var front, last := digits[..|digits| - 1], digits[|digits| - 1];
      DigitsOfSlot(front);
      var low := IndexInAlphabet(last).value;
      AlphabetInverse(low, last);
      assert Slot(digits).value / BASE == Slot(front).value && Slot(digits).value % BASE == low;
      assert digits == front + [last];
    }
  }

  /** Slots below the size of the space and three-character anchors are the same thing. */
  lemma {:induction false} AnchorRoundTrip(idx: nat, hash: string)
    ensures idx < HASH_SPACE ==> IsAnchor(IdxToHash(idx)) && HashToIndex(IdxToHash(idx)) == Some(idx)
    ensures HashToIndex(hash).Some? ==> HashToIndex(hash).value < HASH_SPACE
    ensures IsAnchor(hash) ==> IdxToHash(HashToIndex(hash).value) == hash
  {
    PowerOfLen();
    if idx < HASH_SPACE {
      SlotOfDigits(idx, HASH_LEN);
      assert IdxToHash(idx)[..HASH_LEN] == IdxToHash(idx);
    }
    if HashToIndex(hash).Some? {
      DigitsOfSlot(hash[..HASH_LEN]);
      if |hash| == HASH_LEN {
        assert hash[..HASH_LEN] == hash;
      }
    }
  }

  /** Which characters an anchor has: the three base-62 digits of its slot, the highest first. */
  lemma {:induction false} AnchorExactly(idx: nat)
    requires idx < 238_328
    ensures IdxToHash(idx) == [AlphabetAt(idx / 3844), AlphabetAt(idx / 62 % 62), AlphabetAt(idx % 62)]
  {
    DigitsOfThree(idx);
    assert idx / 62 / 62 == idx / 3844 && idx / 3844 % 62 == idx / 3844;
  }

  lemma {:induction false} DigitsOfThree(idx: nat)
    ensures IdxToHash(idx) == [AlphabetAt(idx / 62 / 62 % 62), AlphabetAt(idx / 62 % 62), AlphabetAt(idx % 62)]
  {
    var high := idx / 62 / 62;
    assert Digits(high / 62, 0) == "";
    assert Digits(high, 1) == [AlphabetAt(high % 62)];
    assert Digits(idx / 62, 2) == [AlphabetAt(high % 62), AlphabetAt(idx / 62 % 62)];
    assert Digits(idx, 3) == Digits(idx / 62, 2) + [AlphabetAt(idx % 62)];
  }

  /** The digits in order: A to Z, a to z, 0 to 9. */
  lemma {:induction false} AlphabetInOrder(i: nat)
    requires i < 62
    ensures AlphabetAt(0) == 'A' && AlphabetAt(25) == 'Z' && AlphabetAt(26) == 'a' && AlphabetAt(51) == 'z'
    ensures AlphabetAt(52) == '0' && AlphabetAt(61) == '9'
    ensures i !in {25, 51, 61} ==> AlphabetAt(i + 1) as int == AlphabetAt(i) as int + 1
  {
  }

  lemma {:induction false} PowerOfLen()
    ensures Power(HASH_LEN) == HASH_SPACE
  {
    assert Power(1) == BASE;
    assert Power(2) == BASE * BASE;
  }

  /** The source's digit loop: prepend the lowest digit, divide, repeat. */
  method IdxToHashLoop(slot: nat) returns (out: string)
    ensures out == IdxToHash(slot)
  {
    var idx: nat := slot;
    out := "";
    for j := 0 to HASH_LEN
      invariant Digits(idx, HASH_LEN - j) + out == IdxToHash(slot)
    {
      assert Digits(idx, HASH_LEN - j) == Digits(idx / BASE, HASH_LEN - j - 1) + [AlphabetAt(idx % BASE)];
      out := [AlphabetAt(idx % BASE)] + out;
      idx := idx / BASE;
    }
    assert Digits(idx, 0) + out == out;
  }

  /** The source's reading loop: multiply, add the next digit, give up at a foreign character. */
  method HashToIndexLoop(hash: string) returns (idx: int)
    ensures idx == if HashToIndex(hash).Some? then HashToIndex(hash).value else -1
  {
    idx := 0;
    for j := 0 to HASH_LEN
      invariant j <= |hash| && Slot(hash[..j]) == Some(idx)
    {
      if j >= |hash| { return -1; }
      assert hash[..j + 1][..j] == hash[..j];
      var charIdx := IndexInAlphabet(hash[j]);
      if charIdx.None? {
        if |hash| >= HASH_LEN { NoSlot(hash[..HASH_LEN], j); }
        return -1;
      }
      idx := idx * BASE + charIdx.value;
    }
  }

  lemma {:induction false} NoSlot(digits: string, j: nat)
    requires j < |digits| && IndexInAlphabet(digits[j]).None?
    ensures Slot(digits).None?
    decreases |digits|
  {
    if j < |digits| - 1 {
      NoSlot(digits[..|digits| - 1], j);
    }
  }

  // ---- the probe sequence reaches every slot ----

  lemma {:induction false} MultipleGrows(n: int, z: int)
    requires n > 0 && z > 0
    ensures n * z >= n
    decreases z
  {
    if z > 1 {
      MultipleGrows(n, z - 1);
      Distribute(z, 1, n);
    }
  }

  lemma {:induction false} MultipleIsFar(n: int, z: int)
    requires n > 0 && z != 0
    ensures n * z >= n || n * z <= -n
  {
    if z > 0 {
      MultipleGrows(n, z);
    } else {
      MultipleGrows(n, -z);
      Distribute(0, z, n);
    }
  }

  /** x and t differ by a multiple of n. */
  lemma {:induction false} ModUnique(x: nat, t: nat, n: nat, m: int)
    requires t < n && x == t + n * m
    ensures x % n == t
  {
    var q, r := x / n, x % n;
    assert x == n * q + r;
    Distribute(q, m, n);
    if q != m {
      MultipleIsFar(n, q - m);
    }
  }

  lemma {:induction false} Distribute(a: int, b: int, c: int)
    ensures (a - b) * c == a * c - b * c && c * (a - b) == c * a - c * b
  {
  }

  lemma {:induction false} Associate(a: int, b: int, c: int)
    ensures (a * b) * c == a * (b * c) == b * (a * c)
  {
  }

  lemma {:induction false} StrideTimesBase(b: nat)
    ensures (b - 1) * (b * b + b + 1) == b * b * b - 1
  {
    var square := b * b;
    Distribute(b, 1, square + b + 1);
    assert b * (square + b + 1) == b * square + b * b + b;
  }

  /**
   The stride b*b + b + 1 over b*b*b slots: stride times b - 1 is one less than the space, so the
   probe sequence from any start reaches any slot within one round.
   */
  lemma {:induction false} ProbeReaches(b: nat, start: nat, target: nat) returns (k: nat)
    requires b > 1 && target < b * b * b
    ensures k < b * b * b && (start + k * (b * b + b + 1)) % (b * b * b) == target
  {
    StrideTimesBase(b);
    k := ReachOver(b, b * b * b, b * b + b + 1, start, target);
  }

  lemma {:induction false} ReachOver(b: nat, space: nat, stride: nat, start: nat, target: nat) returns (k: nat)
    requires (b - 1) * stride == space - 1 && target < space
    ensures k < space && (start + k * stride) % space == target
  {
    var d := start as int - target as int;
    var e := d * (b - 1);
    var q := e / space;
    k := e % space;
    assert k == e - space * q;
    Distribute(e, space * q, stride);
    Associate(d, b - 1, stride);
    Distribute(space, 1, d);
    Associate(space, q, stride);
    Distribute(d, q * stride, space);
    assert start + k * stride == target + space * (d - q * stride);
    ModUnique(start + k * stride, target, space, d - q * stride);
  }
}
