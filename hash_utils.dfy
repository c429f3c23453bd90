// The hash engine and the nonce codec (hash_utils.c): a rolling hash over the
// text and the nonce, the trailing-zero difficulty test, and the fixed-width
// mixed-radix numeral that maps a rank to a nonce over a character set and back.
module HashUtils {
  import opened Types
  import opened Arith

  const PRIME: nat := 999999937

  // ---------------------------------------------------------------------------
  // Hash engine
  // ---------------------------------------------------------------------------

  /** One step of the recurrence h := (h * 31 + byte) mod PRIME. */
  function HashStep(h: nat, b: byte): nat
  {
    (h * 31 + b as nat) % PRIME
  }

  /** The recurrence folded over the bytes of s, first byte first, starting from h. */
  function HashFold(h: nat, s: seq<byte>): nat
    decreases |s|
  {
    if s == [] then h else HashStep(HashFold(h, s[..|s| - 1]), s[|s| - 1])
  }

  /** The hash of a text and a nonce: the text bytes are folded first, then the nonce bytes. */
  function HashOf(text: seq<byte>, nonce: seq<byte>): nat
  {
    HashFold(HashFold(0, text), nonce)
  }

  lemma {:induction false} HashFoldAppend(h: nat, a: seq<byte>, b: seq<byte>)
    ensures HashFold(h, a + b) == HashFold(HashFold(h, a), b)
    decreases |b|
  {
    if b == [] {
      assert a + b == a;
    } else {
      assert (a + b)[..|a + b| - 1] == a + b[..|b| - 1];
      HashFoldAppend(h, a, b[..|b| - 1]);
    }
  }

  /** The hash depends on the text and the nonce only through their concatenation. */
  lemma {:induction false} HashOfConcat(text: seq<byte>, nonce: seq<byte>)
    ensures HashOf(text, nonce) == HashFold(0, text + nonce)
  {
    HashFoldAppend(0, text, nonce);
  }

  /** calculate_hash: the two accumulating loops. */
  method CalculateHash(text: seq<byte>, textLen: nat, nonce: seq<byte>, nonceLen: nat) returns (hash: u64)
    requires textLen <= |text| && nonceLen <= |nonce|
    ensures hash as nat == HashOf(text[..textLen], nonce[..nonceLen])
    ensures hash as nat < PRIME
    ensures textLen == 0 && nonceLen == 0 ==> hash == 0
  {
    hash := 0;
    var i := 0;
    while i < textLen
      invariant 0 <= i <= textLen
      invariant hash as nat == HashFold(0, text[..i]) && hash as nat < PRIME
    {
      // hash < PRIME, so hash * 31 + 255 stays far below 2^64
      hash := (hash * 31 + text[i] as u64) % PRIME as u64;
      assert text[..i + 1][..i] == text[..i];
      i := i + 1;
    }
    ghost var afterText := hash as nat;
    i := 0;
    while i < nonceLen
      invariant 0 <= i <= nonceLen
      invariant hash as nat == HashFold(afterText, nonce[..i]) && hash as nat < PRIME
    {
      hash := (hash * 31 + nonce[i] as u64) % PRIME as u64;
      assert nonce[..i + 1][..i] == nonce[..i];
      i := i + 1;
    }
  }

  /** The lowest `difficulty` decimal digits of `hash` are zero (vacuous for difficulty <= 0). */
  predicate MeetsDifficulty(hash: nat, difficulty: int)
  {
    difficulty <= 0 || hash % Pow(10, difficulty) == 0
  }

  /** Peeling one decimal digit off the divisibility test. */
  lemma {:induction false} DigitStep(n: nat, k: nat)
    ensures n % Pow(10, k + 1) == 0 <==> n % 10 == 0 && (n / 10) % Pow(10, k) == 0
  {
    ModMul(n, 10, Pow(10, k));
  }

  /** verify_difficulty: tests one decimal digit per iteration. */
  method VerifyDifficulty(hash: u64, difficulty: int) returns (ok: bool)
    ensures ok <==> MeetsDifficulty(hash as nat, difficulty)
    ensures difficulty <= 0 ==> ok
  {
    var h := hash;
    var i := 0;
    while i < difficulty
      invariant 0 <= i && (difficulty >= 0 ==> i <= difficulty)
      invariant MeetsDifficulty(hash as nat, difficulty) == MeetsDifficulty(h as nat, difficulty - i)
    {
      DigitStep(h as nat, difficulty - i - 1);
      if h % 10 != 0 {
        return false;
      }
      h := h / 10;
      i := i + 1;
    }
    return true;
  }

  /**
   * No hash reaches ten decimal digits, so from difficulty 10 on only the hash 0
   * passes: a high difficulty does not rule out a solution.
   */
  lemma {:induction false} HighDifficultyOnlyZero(hash: nat, difficulty: int)
    requires hash < PRIME && difficulty >= 10
    ensures MeetsDifficulty(hash, difficulty) <==> hash == 0
  {
    PowMonotoneExp(10, 10, difficulty);
    assert Pow(10, 10) == 10000000000 by {
      assert Pow(10, 5) == 100000;
      assert Pow(10, 10) == 10 * 10 * 10 * 10 * 10 * Pow(10, 5);
    }
    assert hash % Pow(10, difficulty) == hash;
  }

  // ---------------------------------------------------------------------------
  // Nonce codec
  // ---------------------------------------------------------------------------

  /** Position of the first occurrence of c in cs, or -1: the inner search loop of the codec. */
  function IndexOf(cs: seq<byte>, c: byte): (r: int)
    ensures -1 <= r < |cs|
    ensures r == -1 <==> c !in cs
    ensures r >= 0 ==> cs[r] == c && forall j :: 0 <= j < r ==> cs[j] != c
  {
    IndexFrom(cs, c, 0)
  }

  function IndexFrom(cs: seq<byte>, c: byte, j: nat): (r: int)
    requires j <= |cs|
    ensures -1 <= r < |cs|
    ensures r == -1 ==> forall i :: j <= i < |cs| ==> cs[i] != c
    ensures r >= 0 ==> j <= r && cs[r] == c && forall i :: j <= i < r ==> cs[i] != c
    decreases |cs| - j
  {
    if j == |cs| then -1
    else if cs[j] == c then j
    else IndexFrom(cs, c, j + 1)
  }

  lemma {:induction false} IndexOfDistinct(cs: seq<byte>, k: nat)
    requires Distinct(cs) && k < |cs|
    ensures IndexOf(cs, cs[k]) == k
  {
  }

  /** The scan over the charset shared by nonce_to_number and increment_nonce. */
  method FindIndex(cs: seq<byte>, c: byte) returns (idx: int)
    ensures idx == IndexOf(cs, c)
  {
    var j := 0;
    while j < |cs|
      invariant 0 <= j <= |cs|
      invariant forall k :: 0 <= k < j ==> cs[k] != c
    {
      if cs[j] == c {
        return j;
      }
      j := j + 1;
    }
    return -1;
  }

  predicate ValidNonce(s: seq<byte>, cs: seq<byte>)
  {
    forall i :: 0 <= i < |s| ==> s[i] in cs
  }

  /** The rank of a nonce of charset symbols, most significant position first. */
  function Value(s: seq<byte>, cs: seq<byte>): nat
    requires ValidNonce(s, cs)
    decreases |s|
  {
    if s == [] then 0 else Value(s[..|s| - 1], cs) * |cs| + IndexOf(cs, s[|s| - 1])
  }

  /** What nonce_to_number returns: the rank, or 0 when some byte is not in the charset. */
  function RankOrZero(s: seq<byte>, cs: seq<byte>): nat
  {
    if ValidNonce(s, cs) then Value(s, cs) else 0
  }

  /** The len-symbol numeral of num in base |cs|, high-order positions dropped. */
  function Encode(num: nat, len: nat, cs: seq<byte>): (s: seq<byte>)
    requires |cs| >= 1
    ensures |s| == len
    decreases len
  {
    if len == 0 then [] else Encode(num / |cs|, len - 1, cs) + [cs[num % |cs|]]
  }

  /** Every position of the numeral is a charset symbol. */
  lemma {:induction false} EncodeValid(num: nat, len: nat, cs: seq<byte>)
    requires |cs| >= 1
    ensures ValidNonce(Encode(num, len, cs), cs)
    decreases len
  {
    if len > 0 {
      EncodeValid(num / |cs|, len - 1, cs);
    }
  }

  /** Position i of the numeral holds digit (num / size^(len-1-i)) mod size. */
  lemma {:induction false} EncodeAt(num: nat, len: nat, cs: seq<byte>, i: nat)
    requires |cs| >= 1 && i < len
    ensures Encode(num, len, cs)[i] == cs[(num / Pow(|cs|, len - 1 - i)) % |cs|]
    decreases len
  {
    if i < len - 1 {
      var S := |cs|;
      var P := Pow(S, len - 2 - i);
      assert Encode(num, len, cs)[i] == Encode(num / S, len - 1, cs)[i];
      EncodeAt(num / S, len - 1, cs, i);
      ModMul(num, S, P);
      assert Pow(S, len - 1 - i) == S * P;
    }
  }

  lemma {:induction false} ValueBound(s: seq<byte>, cs: seq<byte>)
    requires ValidNonce(s, cs)
    ensures Value(s, cs) < Pow(|cs|, |s|)
    decreases |s|
  {
    if s != [] {
      var pre, S := s[..|s| - 1], |cs|;
      assert ValidNonce(pre, cs);
      var v, p := Value(pre, cs), IndexOf(cs, s[|s| - 1]);
      assert Value(s, cs) == v * S + p && p < S;
      ValueBound(pre, cs);
      assert Pow(S, |s|) == S * Pow(S, |pre|);
      MulMonotone(v + 1, Pow(S, |pre|), S);
      MulSucc(v, S);
    }
  }

  /** Decoding an encoded rank gives the rank modulo size^len. */
  lemma {:induction false} ValueEncode(num: nat, len: nat, cs: seq<byte>)
    requires |cs| >= 1 && Distinct(cs)
    ensures ValidNonce(Encode(num, len, cs), cs) && Value(Encode(num, len, cs), cs) == num % Pow(|cs|, len)
    decreases len
  {
    EncodeValid(num, len, cs);
    if len > 0 {
      ValueEncode(num / |cs|, len - 1, cs);
      ValueEncodeStep(num, len, cs);
    }
  }

  /** One digit of ValueEncode: the rank of the prefix numeral, times size, plus the digit. */
  lemma {:induction false} ValueEncodeStep(num: nat, len: nat, cs: seq<byte>)
    requires |cs| >= 1 && Distinct(cs) && len >= 1
    requires ValidNonce(Encode(num, len, cs), cs)
    requires ValidNonce(Encode(num / |cs|, len - 1, cs), cs)
    requires Value(Encode(num / |cs|, len - 1, cs), cs) == (num / |cs|) % Pow(|cs|, len - 1)
    ensures Value(Encode(num, len, cs), cs) == num % Pow(|cs|, len)
  {
    var S, P := |cs|, Pow(|cs|, len - 1);
    DivModBounds(num, S);
    var s := Encode(num, len, cs);
    var pre, d := Encode(num / S, len - 1, cs), num % S;
    assert s[..len - 1] == pre && s[len - 1] == cs[d];
    IndexOfDistinct(cs, d);
    assert Value(s, cs) == Value(pre, cs) * S + d;
    assert Value(pre, cs) * S + d == num % (S * P) by {
      ModMul(num, S, P);
    }
  }

  /** Encoding the rank of a valid nonce gives the nonce back. */
  lemma {:induction false} EncodeValue(s: seq<byte>, cs: seq<byte>)
    requires |cs| >= 1 && Distinct(cs) && ValidNonce(s, cs)
    ensures Encode(Value(s, cs), |s|, cs) == s
    decreases |s|
  {
    if s != [] {
      var pre := s[..|s| - 1];
      var p := IndexOf(cs, s[|s| - 1]);
      DivModUnique(Value(s, cs), |cs|, Value(pre, cs), p);
      EncodeValue(pre, cs);
    }
  }

  /** Round trip through the codec, in both directions. */
  lemma {:induction false} RankRoundTrip(num: nat, len: nat, cs: seq<byte>)
    requires |cs| >= 1 && Distinct(cs)
    ensures RankOrZero(Encode(num, len, cs), cs) == num % Pow(|cs|, len)
    ensures num < Pow(|cs|, len) ==> RankOrZero(Encode(num, len, cs), cs) == num
  {
    ValueEncode(num, len, cs);
    if num < Pow(|cs|, len) {
      DivModUnique(num, Pow(|cs|, len), 0, num);
    }
  }

  lemma {:induction false} NonceRoundTrip(s: seq<byte>, cs: seq<byte>)
    requires |cs| >= 1 && Distinct(cs) && ValidNonce(s, cs)
    ensures Encode(RankOrZero(s, cs), |s|, cs) == s
    ensures RankOrZero(s, cs) < Pow(|cs|, |s|)
  {
    EncodeValue(s, cs);
    ValueBound(s, cs);
  }

  /** Ranks at or beyond size^len are encoded as their remainder. */
  lemma {:induction false} EncodeWraps(num: nat, len: nat, cs: seq<byte>)
    requires |cs| >= 1 && Distinct(cs)
    ensures Encode(num, len, cs) == Encode(num % Pow(|cs|, len), len, cs)
  {
    ValueEncode(num, len, cs);
    EncodeValue(Encode(num, len, cs), cs);
  }

  /** The all-first-symbol nonce is the numeral of 0. */
  lemma {:induction false} EncodeZero(len: nat, cs: seq<byte>)
    requires |cs| >= 1
    ensures forall i :: 0 <= i < len ==> Encode(0, len, cs)[i] == cs[0]
    decreases len
  {
    if len > 0 {
      EncodeZero(len - 1, cs);
    }
  }

  /** An invalid nonce decodes exactly like the all-first-symbol nonce. */
  lemma {:induction false} InvalidLooksLikeZero(s: seq<byte>, cs: seq<byte>)
    requires |cs| >= 1 && Distinct(cs) && !ValidNonce(s, cs)
    ensures RankOrZero(s, cs) == RankOrZero(Encode(0, |s|, cs), cs) == 0
  {
    ValueEncode(0, |s|, cs);
  }

  /** Header bounds keep every rank within 64 bits: 64^9 = 2^54. */
  lemma {:induction false} SpaceFits(size: nat, len: nat)
    requires size <= MAX_CHARSET_SIZE && len < MAX_NONCE_SIZE
    ensures Pow(size, len) <= 0x40_0000_0000_0000 < U64_LIMIT
  {
    PowMonotoneBase(size, 64, len);
    PowMonotoneExp(64, len, 9);
    assert Pow(64, 3) == 262144;
    assert Pow(64, 9) == 262144 * 262144 * Pow(64, 3);
  }

  /** Machine division by a positive divisor: the quotient stays inside 64 bits. */
  function Quotient(n: u64, d: u64): (q: u64)
    requires d > 0
    ensures q as int == (n as int) / (d as int) <= n as int
  {
    DivShrinks(n as nat, d as nat);
    n / d
  }

  /** One more digit keeps the accumulated rank below size^(i+1), hence inside 64 bits. */
  lemma {:induction false} AccumulateFits(v: nat, idx: nat, size: nat, i: nat, len: nat)
    requires 1 <= size <= MAX_CHARSET_SIZE && len < MAX_NONCE_SIZE && i < len
    requires v < Pow(size, i) && idx < size
    ensures v * size + idx < Pow(size, i + 1) < U64_LIMIT
  {
    DigitBound(v, idx, size, Pow(size, i));
    PowMonotoneExp(size, i + 1, len);
    SpaceFits(size, len);
  }

  /** number_to_nonce: fills positions len-1 down to 0, then writes the terminator. */
  method NumberToNonce(num: u64, nonce: array<byte>, len: nat, cs: seq<byte>)
    requires 1 <= |cs| <= MAX_CHARSET_SIZE && len < nonce.Length
    modifies nonce
    ensures nonce[..len] == Encode(num as nat, len, cs)
    ensures nonce[len] == 0
    ensures forall k :: len < k < nonce.Length ==> nonce[k] == old(nonce[k])
  {
    ghost var e := Encode(num as nat, len, cs);
    var size := |cs| as u64;
    var n := num;
    var i := len;
    while i > 0
      invariant 0 <= i <= len
      invariant e[..i] == Encode(n as nat, i, cs)
      invariant forall k :: i <= k < len ==> nonce[k] == e[k]
      invariant forall k :: len <= k < nonce.Length ==> nonce[k] == old(nonce[k])
    {
      var q := Quotient(n, size);
      var d := n % size;
      assert Encode(n as nat, i, cs) == Encode(q as nat, i - 1, cs) + [cs[d]];
      assert e[i - 1] == e[..i][i - 1] == cs[d];
      assert e[..i - 1] == e[..i][..i - 1];
      nonce[i - 1] := cs[d];
      n := q;
      i := i - 1;
    }
    nonce[len] := 0;
  }

  /** nonce_to_number: accumulates num * size + index left to right, 0 on a foreign byte. */
  method NonceToNumber(nonce: seq<byte>, len: nat, cs: seq<byte>) returns (num: u64)
    requires len <= |nonce| && len < MAX_NONCE_SIZE && |cs| <= MAX_CHARSET_SIZE
    ensures num as nat == RankOrZero(nonce[..len], cs)
    ensures num as nat < Pow(|cs|, len) || (num == 0 && !ValidNonce(nonce[..len], cs))
  {
    num := 0;
    var i := 0;
    while i < len
      invariant 0 <= i <= len
      invariant ValidNonce(nonce[..i], cs) && num as nat == Value(nonce[..i], cs)
      invariant num as nat < Pow(|cs|, i)
    {
      var idx := FindIndex(cs, nonce[i]);
      if idx == -1 {
        assert nonce[..len][i] == nonce[i];
        return 0;
      }
      AccumulateFits(num as nat, idx, |cs|, i, len);
      assert nonce[..i + 1][..i] == nonce[..i];
      num := num * |cs| as u64 + idx as u64;
      i := i + 1;
    }
    assert nonce[..len] == nonce[..i];
  }

  /**
   * The successor of a nonce, computed right to left with carry, and whether it
   * did not overflow. A position holding the last symbol wraps to the first and
   * carries; a byte not in the charset stops the carry with false, leaving the
   * positions already wrapped at the first symbol.
   */
  function Successor(s: seq<byte>, cs: seq<byte>): (r: (seq<byte>, bool))
    ensures |r.0| == |s|
    decreases |s|
  {
    if s == [] then (s, false)
    else
      var p := IndexOf(cs, s[|s| - 1]);
      if p == -1 then (s, false)
      else if p < |cs| - 1 then (s[..|s| - 1] + [cs[p + 1]], true)
      else
        var t := Successor(s[..|s| - 1], cs);
        (t.0 + [cs[0]], t.1)
  }

  /** The carry walk resumed at position k - 1, positions k.. kept as they stand. */
  function SuccessorFrom(s: seq<byte>, k: nat, cs: seq<byte>): (r: (seq<byte>, bool))
    requires k <= |s|
  {
    var t := Successor(s[..k], cs);
    (t.0 + s[k..], t.1)
  }

  /** The carry walk meets a byte outside the charset: it stops, reporting false. */
  lemma {:induction false} SuccessorFromStops(s: seq<byte>, k: nat, cs: seq<byte>)
    requires 0 < k <= |s| && IndexOf(cs, s[k - 1]) == -1
    ensures SuccessorFrom(s, k, cs) == (s, false)
  {
    var h := s[..k];
    assert h[|h| - 1] == s[k - 1];
    assert Successor(h, cs) == (h, false);
    assert h + s[k..] == s;
  }

  /** The carry walk meets a symbol below the last: it steps it up, reporting true. */
  lemma {:induction false} SuccessorFromBumps(s: seq<byte>, k: nat, cs: seq<byte>)
    requires 0 < k <= |s| && 0 <= IndexOf(cs, s[k - 1]) < |cs| - 1
    ensures SuccessorFrom(s, k, cs) == (s[k - 1 := cs[IndexOf(cs, s[k - 1]) + 1]], true)
  {
    var h, p := s[..k], IndexOf(cs, s[k - 1]);
    assert h[|h| - 1] == s[k - 1] && h[..|h| - 1] == s[..k - 1];
    assert Successor(h, cs) == (s[..k - 1] + [cs[p + 1]], true);
    assert s[k - 1 := cs[p + 1]] == s[..k - 1] + [cs[p + 1]] + s[k..];
  }

  /** The carry walk meets the last symbol: it wraps it and moves one position left. */
  lemma {:induction false} SuccessorFromCarries(s: seq<byte>, k: nat, cs: seq<byte>)
    requires 0 < k <= |s| && |cs| >= 1 && IndexOf(cs, s[k - 1]) == |cs| - 1
    ensures SuccessorFrom(s, k, cs) == SuccessorFrom(s[k - 1 := cs[0]], k - 1, cs)
  {
    var h, pre := s[..k], s[..k - 1];
    assert h[|h| - 1] == s[k - 1] && h[..|h| - 1] == pre;
    var t := Successor(pre, cs);
    assert Successor(h, cs) == (t.0 + [cs[0]], t.1);
    var s' := s[k - 1 := cs[0]];
    assert s'[..k - 1] == pre && s'[k - 1..] == [cs[0]] + s[k..];
    assert t.0 + [cs[0]] + s[k..] == t.0 + ([cs[0]] + s[k..]);
  }

  lemma {:induction false} SuccessorFromEnds(s: seq<byte>, cs: seq<byte>)
    ensures SuccessorFrom(s, |s|, cs) == Successor(s, cs)
    ensures SuccessorFrom(s, 0, cs) == (s, false)
  {
    var t := Successor(s, cs);
    assert s[..|s|] == s && s[|s|..] == [];
    assert t.0 + [] == t.0;
    var e: seq<byte> := [];
    assert s[..0] == e && s[0..] == s && e + s == s;
    assert Successor(e, cs) == (e, false);
  }

  /** increment_nonce: in place, with early return. */
  method IncrementNonce(nonce: array<byte>, len: nat, cs: seq<byte>) returns (ok: bool)
    requires len <= nonce.Length
    modifies nonce
    ensures (nonce[..len], ok) == Successor(old(nonce[..len]), cs)
    ensures nonce[len..] == old(nonce[len..])
  {
    ghost var target := Successor(nonce[..len], cs);
    ghost var cur := nonce[..len];
    SuccessorFromEnds(cur, cs);
    var k := len;
    while k > 0
      invariant 0 <= k <= len
      invariant nonce[len..] == old(nonce[len..])
      invariant nonce[..len] == cur
      invariant SuccessorFrom(cur, k, cs) == target
    {
      var pos := FindIndex(cs, nonce[k - 1]);
      if pos == -1 {
        SuccessorFromStops(cur, k, cs);
        return false;
      }
      if pos < |cs| - 1 {
        SuccessorFromBumps(cur, k, cs);
        nonce[k - 1] := cs[pos + 1];
        cur := cur[k - 1 := cs[pos + 1]];
        assert nonce[..len] == cur;
        return true;
      }
      SuccessorFromCarries(cur, k, cs);
      nonce[k - 1] := cs[0];
      cur := cur[k - 1 := cs[0]];
      assert nonce[..len] == cur;
      k := k - 1;
    }
    SuccessorFromEnds(cur, cs);
    return false;
  }

  /**
   * On a valid nonce the successor is the numeral of rank + 1, and it reports
   * success exactly when rank + 1 still fits; the maximum wraps to the
   * all-first-symbol nonce.
   */
  lemma {:induction false} SuccessorValue(s: seq<byte>, cs: seq<byte>)
    requires |cs| >= 1 && Distinct(cs) && ValidNonce(s, cs)
    ensures Successor(s, cs).0 == Encode(Value(s, cs) + 1, |s|, cs)
    ensures Successor(s, cs).1 <==> Value(s, cs) + 1 < Pow(|cs|, |s|)
    decreases |s|
  {
    if s != [] {
      var pre := s[..|s| - 1];
      assert ValidNonce(pre, cs);
      if IndexOf(cs, s[|s| - 1]) < |cs| - 1 {
        LastDigitSteps(s, cs);
      } else {
        SuccessorValue(pre, cs);
        LastDigitWraps(s, cs, Successor(pre, cs).0);
        LastDigitWrapsFits(s, cs, Pow(|cs|, |pre|));
        assert Successor(s, cs) == (Successor(pre, cs).0 + [cs[0]], Successor(pre, cs).1);
      }
    }
  }

  /** Appending a digit to a numeral: the rank times size plus the digit. */
  lemma {:induction false} EncodeDigit(m: nat, len: nat, cs: seq<byte>, v: nat, d: nat)
    requires |cs| >= 1 && d < |cs| && len >= 1 && m == v * |cs| + d
    ensures Encode(m, len, cs) == Encode(v, len - 1, cs) + [cs[d]]
  {
    DivModUnique(m, |cs|, v, d);
  }

  /** The last position is below the last symbol: it alone steps up. */
  lemma {:induction false} LastDigitSteps(s: seq<byte>, cs: seq<byte>)
    requires |cs| >= 1 && Distinct(cs) && ValidNonce(s, cs) && s != []
    requires IndexOf(cs, s[|s| - 1]) < |cs| - 1
    ensures Successor(s, cs).0 == Encode(Value(s, cs) + 1, |s|, cs)
    ensures Successor(s, cs).1 <==> Value(s, cs) + 1 < Pow(|cs|, |s|)
  {
    var n, S := |s|, |cs|;
    var pre := s[..n - 1];
    assert ValidNonce(pre, cs);
    var p := IndexOf(cs, s[n - 1]);
    var v := Value(pre, cs);
    assert Value(s, cs) + 1 == v * S + (p + 1);
    assert Successor(s, cs) == (pre + [cs[p + 1]], true);
    EncodeValue(pre, cs);
    EncodeDigit(Value(s, cs) + 1, n, cs, v, p + 1);
    ValueBound(pre, cs);
    DigitBound(v, p + 1, S, Pow(S, n - 1));
  }

  /** The last position holds the last symbol: rank + 1 is (rank of the prefix + 1) * size. */
  lemma {:induction false} LastDigitWraps(s: seq<byte>, cs: seq<byte>, t: seq<byte>)
    requires |cs| >= 1 && ValidNonce(s, cs) && s != []
    requires IndexOf(cs, s[|s| - 1]) == |cs| - 1
    requires t == Encode(Value(s[..|s| - 1], cs) + 1, |s| - 1, cs)
    ensures t + [cs[0]] == Encode(Value(s, cs) + 1, |s|, cs)
  {
    var v := Value(s[..|s| - 1], cs);
    MulSucc(v, |cs|);
    EncodeDigit(Value(s, cs) + 1, |s|, cs, v + 1, 0);
  }

  lemma {:induction false} LastDigitWrapsFits(s: seq<byte>, cs: seq<byte>, P: nat)
    requires |cs| >= 1 && ValidNonce(s, cs) && s != []
    requires IndexOf(cs, s[|s| - 1]) == |cs| - 1
    requires ValidNonce(s[..|s| - 1], cs) && P == Pow(|cs|, |s| - 1)
    ensures Value(s, cs) + 1 < Pow(|cs|, |s|) <==> Value(s[..|s| - 1], cs) + 1 < P
  {
    var S := |cs|;
    var v := Value(s[..|s| - 1], cs);
    MulSucc(v, S);
    assert Value(s, cs) + 1 == (v + 1) * S;
    MulLessIff(v + 1, P, S);
  }

  /** What increment_nonce promises in terms of ranks. */
  lemma {:induction false} SuccessorRank(s: seq<byte>, cs: seq<byte>)
    requires |cs| >= 1 && Distinct(cs) && ValidNonce(s, cs)
    ensures Successor(s, cs).1 <==> RankOrZero(s, cs) + 1 < Pow(|cs|, |s|)
    ensures Successor(s, cs).1 ==> RankOrZero(Successor(s, cs).0, cs) == RankOrZero(s, cs) + 1
    ensures !Successor(s, cs).1 ==> forall i :: 0 <= i < |s| ==> Successor(s, cs).0[i] == cs[0]
  {
    SuccessorValue(s, cs);
    var v, P := Value(s, cs), Pow(|cs|, |s|);
    assert RankOrZero(s, cs) == v;
    var t := Successor(s, cs);
    assert t.0 == Encode(v + 1, |s|, cs);
    if t.1 {
      RankRoundTrip(v + 1, |s|, cs);
    } else {
      ValueBound(s, cs);
      assert v + 1 == P;
      WrapToZero(P, |s|, cs);
    }
  }

  /** The numeral of size^len is the numeral of 0: every position the first symbol. */
  lemma {:induction false} WrapToZero(P: nat, len: nat, cs: seq<byte>)
    requires |cs| >= 1 && Distinct(cs) && P == Pow(|cs|, len)
    ensures forall i :: 0 <= i < len ==> Encode(P, len, cs)[i] == cs[0]
  {
    EncodeWraps(P, len, cs);
    DivModUnique(P, P, 1, 0);
    EncodeZero(len, cs);
  }

  /** A position changes only when every position to its right held the last symbol. */
  lemma {:induction false} SuccessorCarry(s: seq<byte>, cs: seq<byte>, j: nat)
    requires j < |s| && Successor(s, cs).0[j] != s[j]
    ensures forall m :: j < m < |s| ==> s[m] == cs[|cs| - 1]
    decreases |s|
  {
    var n := |s|;
    var p := IndexOf(cs, s[n - 1]);
    if j < n - 1 {
      assert p == |cs| - 1;
      var pre := s[..n - 1];
      assert Successor(s, cs).0[j] == Successor(pre, cs).0[j];
      SuccessorCarry(pre, cs, j);
      forall m | j < m < n
        ensures s[m] == cs[|cs| - 1]
      {
        if m < n - 1 {
          assert s[m] == pre[m];
        }
      }
    }
  }

  /** k successor steps from the all-first-symbol nonce. */
  function Iterate(s: seq<byte>, cs: seq<byte>, k: nat): seq<byte>
  {
    if k == 0 then s else Successor(Iterate(s, cs, k - 1), cs).0
  }

  /** Stepping from the minimum visits the ranks in order, wrapping at size^len. */
  lemma {:induction false} IterateFromZero(len: nat, cs: seq<byte>, k: nat)
    requires |cs| >= 1 && Distinct(cs)
    ensures Iterate(Encode(0, len, cs), cs, k) == Encode(k, len, cs)
  {
    if k > 0 {
      var z, j := Encode(0, len, cs), k - 1;
      IterateFromZero(len, cs, j);
      NumeralSuccessor(j, len, cs);
      var prev := Iterate(z, cs, j);
      assert prev == Encode(j, len, cs);
      assert Iterate(z, cs, k) == Successor(prev, cs).0;
      assert j + 1 == k;
    }
  }

  /** The successor of the numeral of j is the numeral of j + 1, wrapping at size^len. */
  lemma {:induction false} NumeralSuccessor(j: nat, len: nat, cs: seq<byte>)
    requires |cs| >= 1 && Distinct(cs)
    ensures Successor(Encode(j, len, cs), cs).0 == Encode(j + 1, len, cs)
  {
    var P := Pow(|cs|, len);
    var e := Encode(j, len, cs);
    ValueEncode(j, len, cs);
    var m := j % P + 1;
    calc {
      Successor(e, cs).0;
    == { SuccessorValue(e, cs); }
      Encode(Value(e, cs) + 1, len, cs);
    == { assert Value(e, cs) + 1 == m; }
      Encode(m, len, cs);
    == { EncodeWraps(m, len, cs); }
      Encode(m % P, len, cs);
    == { ModSucc(j, P); }
      Encode((j + 1) % P, len, cs);
    == { EncodeWraps(j + 1, len, cs); }
      Encode(j + 1, len, cs);
    }
  }

  lemma {:induction false} ModSucc(a: nat, P: nat)
    requires P > 0
    ensures ((a % P) + 1) % P == (a + 1) % P
  {
    var q := a / P;
    assert a == q * P + a % P;
    if a % P + 1 < P {
      DivModUnique(a + 1, P, q, a % P + 1);
      DivModUnique(a % P + 1, P, 0, a % P + 1);
    } else {
      assert a + 1 == (q + 1) * P;
      DivModUnique(a + 1, P, q + 1, 0);
      DivModUnique(a % P + 1, P, 1, 0);
    }
  }

  /**
   * Starting from the minimum, each of the first size^len - 1 successor steps
   * reports success, and the next one, taken from the maximum, reports overflow.
   */
  lemma {:induction false} SuccessorSweep(len: nat, cs: seq<byte>)
    requires |cs| >= 1 && Distinct(cs)
    ensures forall k :: 0 <= k < Pow(|cs|, len) - 1 ==> Successor(Iterate(Encode(0, len, cs), cs, k), cs).1
    ensures !Successor(Iterate(Encode(0, len, cs), cs, Pow(|cs|, len) - 1), cs).1
  {
    var P, z := Pow(|cs|, len), Encode(0, len, cs);
    forall k | 0 <= k < P
      ensures Successor(Iterate(z, cs, k), cs).1 <==> k + 1 < P
    {
      IterateFromZero(len, cs, k);
      NumeralFits(k, len, cs);
    }
  }

  /** Stepping the numeral of a rank j below size^len succeeds exactly when j + 1 fits. */
  lemma {:induction false} NumeralFits(j: nat, len: nat, cs: seq<byte>)
    requires |cs| >= 1 && Distinct(cs) && j < Pow(|cs|, len)
    ensures Successor(Encode(j, len, cs), cs).1 <==> j + 1 < Pow(|cs|, len)
  {
    var e := Encode(j, len, cs);
    RankRoundTrip(j, len, cs);
    EncodeValid(j, len, cs);
    SuccessorRank(e, cs);
    assert RankOrZero(e, cs) == j && |e| == len;
  }
}
