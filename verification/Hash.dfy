// time33_hash_32: the unrolled loop, the simple fold, and its algebra.
module Hash {
  import opened Wire

  type uint32 = x: int | 0 <= x < 0x1_0000_0000

  /** A byte as the signed char that the hash reads. */
  function Signed(b: byte): int {
    if b < 128 then b else b - 256
  }

  /** 'hash = ((hash << 5) + hash) + c' on a uint32_t. */
  function Turn(h: uint32, c: int): uint32 {
    ((h * 32) % TWO_32 + h + c) % TWO_32
  }

  /** The simple fold h -> 33 * h + c modulo 2^32. */
  function Fold(h: uint32, s: Bytes): uint32
    decreases |s|
  {
    if s == [] then h else Fold((33 * h + Signed(s[0])) % TWO_32, s[1..])
  }

  lemma TurnIsTimes33(h: uint32, c: int)
    ensures Turn(h, c) == (33 * h + c) % TWO_32
  {
  }

  lemma {:induction false} FoldSnoc(h: uint32, s: Bytes, b: byte)
    ensures Fold(h, s + [b]) == (33 * Fold(h, s) + Signed(b)) % TWO_32
    decreases |s|
  {
    if s == [] {
      assert s + [b] == [b];
      assert Fold(h, [b]) == Fold((33 * h + Signed(b)) % TWO_32, []);
    } else {
      assert (s + [b])[1..] == s[1..] + [b];
      FoldSnoc((33 * h + Signed(s[0])) % TWO_32, s[1..], b);
    }
  }

  lemma NextByte(key: Bytes, at: nat)
    requires at < |key|
    ensures Fold(5381, key[..at + 1]) == Turn(Fold(5381, key[..at]), Signed(key[at]))
  {
    assert key[..at + 1] == key[..at] + [key[at]];
    FoldSnoc(5381, key[..at], key[at]);
    TurnIsTimes33(Fold(5381, key[..at]), Signed(key[at]));
  }

  /** One '*str++' step: the hash of one byte more. */
  method Advance(key: Bytes, hash: uint32, str: nat) returns (hash': uint32, str': nat)
    requires str < |key| && hash == Fold(5381, key[..str])
    ensures str' == str + 1 && hash' == Fold(5381, key[..str'])
  {
    NextByte(key, str);
    hash', str' := Turn(hash, Signed(key[str])), str + 1;
  }

  /**
   * The 8-way loop and the fall-through tail compute the simple fold, that is the polynomial of
   * the key in 33 with 5381 in front; the empty key hashes to 0.
   */
  method Time33(key: Bytes) returns (hash: uint32)
    ensures hash == if key == [] then 0 else Fold(5381, key)
    ensures key != [] ==> hash == (Pow33(|key|) * 5381 + Poly(key)) % 0x1_0000_0000
  {
    hash := 5381;
    if |key| == 0 {
      return 0;
    }
    var str, length := 0, |key|;
    assert key[..0] == [];
    while length >= 8
      invariant 0 <= str && 0 <= length && str + length == |key|
      invariant hash == Fold(5381, key[..str])
    {
      hash, str := Advance(key, hash, str);
      hash, str := Advance(key, hash, str);
      hash, str := Advance(key, hash, str);
      hash, str := Advance(key, hash, str);
      hash, str := Advance(key, hash, str);
      hash, str := Advance(key, hash, str);
      hash, str := Advance(key, hash, str);
      hash, str := Advance(key, hash, str);
      length := length - 8;
    }
    if length >= 7 { hash, str := Advance(key, hash, str); }
    if length >= 6 { hash, str := Advance(key, hash, str); }
    if length >= 5 { hash, str := Advance(key, hash, str); }
    if length >= 4 { hash, str := Advance(key, hash, str); }
    if length >= 3 { hash, str := Advance(key, hash, str); }
    if length >= 2 { hash, str := Advance(key, hash, str); }
    if length >= 1 { hash, str := Advance(key, hash, str); }
    assert key[..str] == key;
    FoldIsPoly(5381, key);
  }

  // ---------- concatenation ----------

  function Pow33(n: nat): (p: nat) {
    if n == 0 then 1 else 33 * Pow33(n - 1)
  }

  /** The polynomial of a text in 33, highest power first; bytes from 128 on count as negative chars. */
  function Poly(t: Bytes): int {
    if t == [] then 0
    else
      var c: int := t[0];
      Pow33(|t| - 1) * (if c < 128 then c else c - 256) + Poly(t[1..])
  }

  lemma SignedChar(b: byte)
    ensures var c: int := b; Signed(b) == if c < 128 then c else c - 256
  {
  }

  lemma ModTimes(p: int, x: int, q: int)
    ensures (p * (x % TWO_32) + q) % TWO_32 == (p * x + q) % TWO_32
  {
    var d := x / TWO_32;
    assert x == TWO_32 * d + x % TWO_32;
    assert p * x == p * (x % TWO_32) + TWO_32 * (p * d) by {
      assert p * (TWO_32 * d) == TWO_32 * (p * d);
    }
    var a := p * (x % TWO_32) + q;
    assert (a + TWO_32 * (p * d)) % TWO_32 == a % TWO_32;
  }

  lemma PolyStep(p: int, h: int, c: int, q: int)
    ensures (p * ((33 * h + c) % TWO_32) + q) % TWO_32 == ((33 * p) * h + (p * c + q)) % TWO_32
  {
    ModTimes(p, 33 * h + c, q);
    assert p * (33 * h + c) + q == (33 * p) * h + (p * c + q);
  }

  lemma {:induction false} FoldIsPoly(h: uint32, t: Bytes)
    ensures Fold(h, t) == (Pow33(|t|) * h + Poly(t)) % TWO_32
    decreases |t|
  {
    hide Signed;
    if t != [] {
      SignedChar(t[0]);
      FoldIsPoly((33 * h + Signed(t[0])) % TWO_32, t[1..]);
      PolyStep(Pow33(|t| - 1), h, Signed(t[0]), Poly(t[1..]));
    }
  }

  lemma {:induction false} FoldConcat(h: uint32, s: Bytes, t: Bytes)
    ensures Fold(h, s + t) == Fold(Fold(h, s), t)
    decreases |s|
  {
    if s == [] {
      assert s + t == t;
    } else {
      assert (s + t)[1..] == s[1..] + t;
      FoldConcat((33 * h + Signed(s[0])) % TWO_32, s[1..], t);
    }
  }

  /** The hash of a concatenation is the hash of the first part times 33^|t| plus the polynomial of the second. */
  lemma HashOfConcat(s: Bytes, t: Bytes)
    ensures Fold(5381, s + t) == (Pow33(|t|) * Fold(5381, s) + Poly(t)) % TWO_32
  {
    FoldConcat(5381, s, t);
    FoldIsPoly(Fold(5381, s), t);
  }
}
