/** Cache keys: their order, the test that accepts them, and the hash that names their directory. */
module Keys {

  datatype Option<+T> = None | Some(value: T)

  type byte = b: int | 0 <= b < 256

  /** A Go string, as its bytes. */
  type Key = seq<byte>

  // ---------------------------------------------------------------- order

  /** Where a key falls in the lexicographic order, as a point of [0, 1): a base-257 fraction. */
  ghost function Rank(s: Key): (r: real)
    ensures 0.0 <= r < 1.0
    ensures s != [] ==> 0.0 < r
  {
    if s == [] then 0.0 else (s[0] as real + 1.0 + Rank(s[1..])) / 257.0
  }

  /** Go's `<` on strings. The rank turns it into `<` on reals. */
  predicate Less(a: Key, b: Key)
    ensures Less(a, b) <==> Rank(a) < Rank(b)
    ensures a == b <==> Rank(a) == Rank(b)
  {
    if b == [] then false
    else if a == [] then true
    else if a[0] != b[0] then a[0] < b[0]
    else
      assert a == b <==> a[1..] == b[1..] by {
        assert a == [a[0]] + a[1..] && b == [b[0]] + b[1..];
      }
      Less(a[1..], b[1..])
  }

  lemma {:induction false} PrefixIsLess(a: Key, b: Key)
    requires a < b
    ensures Less(a, b)
  {
    if a == [] {
    } else {
      assert a[1..] == b[..|a|][1..];
      PrefixIsLess(a[1..], b[1..]);
    }
  }

  lemma {:induction false} DifferenceDecides(a: Key, b: Key, i: nat)
    requires i < |a| && i < |b| && a[..i] == b[..i] && a[i] < b[i]
    ensures Less(a, b)
  {
    if i == 0 {
    } else {
      assert a[0] == a[..i][0] == b[..i][0] == b[0];
      assert a[1..][..i - 1] == a[..i][1..] == b[..i][1..] == b[1..][..i - 1];
      DifferenceDecides(a[1..], b[1..], i - 1);
    }
  }

  lemma {:induction false} FirstDifference(a: Key, b: Key) returns (i: nat)
    requires Less(a, b) && !(a < b)
    ensures i < |a| && i < |b| && a[..i] == b[..i] && a[i] < b[i]
  {
    if a[0] != b[0] {
      i := 0;
    } else {
      assert a == [a[0]] + a[1..] && b == [b[0]] + b[1..];
      var j := FirstDifference(a[1..], b[1..]);
      i := j + 1;
      assert a[..i] == [a[0]] + a[1..][..j] && b[..i] == [b[0]] + b[1..][..j];
    }
  }

  /** `Lt`, `Gt` and `Equals` on items rest on a strict total order, the one lexicographic order of byte strings. */
  lemma LessIsLexicographic(a: Key, b: Key, c: Key)
    ensures !Less(a, a)
    ensures Less(a, b) && Less(b, c) ==> Less(a, c)
    ensures Less(a, b) || a == b || Less(b, a)
    ensures Less(a, b) <==> a < b || exists i :: 0 <= i < |a| && i < |b| && a[..i] == b[..i] && a[i] < b[i]
  {
    if Less(a, b) && !(a < b) {
      var i := FirstDifference(a, b);
      assert a[..i] == b[..i] && a[i] < b[i];
    }
    if a < b {
      PrefixIsLess(a, b);
    }
    forall i | 0 <= i < |a| && i < |b| && a[..i] == b[..i] && a[i] < b[i]
      ensures Less(a, b)
    {
      DifferenceDecides(a, b, i);
    }
  }

  // ---------------------------------------------------------------- validity

  const DOT: byte := 46
  const COMMA: byte := 44
  const DOTDOT: Key := [DOT, DOT]

  datatype KeyError = TooShort | InvalidCharacters | TooLong

  /** The character class of the key expression: letters, digits, dot, underscore and dash. */
  predicate IsKeyChar(c: byte) {
    || 97 <= c <= 122 || 65 <= c <= 90 || 48 <= c <= 57
    || c == DOT || c == 95 || c == 45
  }

  /** The key expression: every character is of the class [a-zA-Z0-9._-]. */
  predicate MatchesClass(key: Key) {
    forall i :: 0 <= i < |key| ==>
      var c := key[i] as char;
      'a' <= c <= 'z' || 'A' <= c <= 'Z' || '0' <= c <= '9' || c == '.' || c == '_' || c == '-'
  }

  /** The reason a key is refused, if it is; the checks come in the source's order. */
  function CheckKey(key: Key): (e: Option<KeyError>)
    ensures e.None? <==> 2 <= |key| <= 64 && MatchesClass(key)
    ensures e == Some(TooShort) <==> |key| < 2
    ensures e == Some(InvalidCharacters) <==> |key| >= 2 && !MatchesClass(key)
  {
    if |key| <= 1 then Some(TooShort)
    else if exists i :: 0 <= i < |key| && !IsKeyChar(key[i]) then Some(InvalidCharacters)
    else if |key| > 64 then Some(TooLong)
    else None
  }

  predicate IsValidKey(key: Key) {
    CheckKey(key).None?
  }

  /** The valid keys that name a file of their own; ".." is valid but names the cache directory. */
  predicate IsFileKey(key: Key) {
    IsValidKey(key) && key != DOTDOT
  }

  // ---------------------------------------------------------------- hash

  const WORD: nat := 0x1_0000_0000_0000_0000

  ghost function Pow63(n: nat): (p: nat) {
    if n == 0 then 1 else 63 * Pow63(n - 1)
  }

  /** The bytes of s as the coefficients of a polynomial at 63, highest power first. */
  ghost function Poly(s: Key): nat {
    if s == [] then 0 else s[0] * Pow63(|s| - 1) + Poly(s[1..])
  }

  ghost function HashOf(s: Key): (h: nat)
    ensures h < WORD
  {
    Poly(s) % WORD
  }

  lemma {:induction false} PowAdd(m: nat, n: nat)
    ensures Pow63(m + n) == Pow63(m) * Pow63(n)
  {
    if m == 0 {
    } else {
      PowAdd(m - 1, n);
      assert Pow63(m + n) == 63 * (Pow63(m - 1) * Pow63(n)) == (63 * Pow63(m - 1)) * Pow63(n);
    }
  }

  lemma Distribute(d: int, p: int, c: int, q: int)
    ensures d * (p * q) + c * q == (d * p + c) * q
  {
    assert d * (p * q) == (d * p) * q;
  }

  lemma {:induction false} PolyConcat(a: Key, b: Key)
    ensures Poly(a + b) == Poly(a) * Pow63(|b|) + Poly(b)
  {
    if a == [] {
      assert a + b == b;
    } else {
      assert (a + b)[1..] == a[1..] + b;
      PolyConcat(a[1..], b);
      PowAdd(|a| - 1, |b|);
      Distribute(a[0], Pow63(|a| - 1), Poly(a[1..]), Pow63(|b|));
    }
  }

  lemma ModOfSum(x: nat, q: nat)
    ensures (x + q * WORD) % WORD == x % WORD
  {
    var y := x + q * WORD;
    var a, b := y / WORD - q, x / WORD;
    assert y == (y / WORD) * WORD + y % WORD && x == b * WORD + x % WORD;
    assert (a - b) * WORD == x % WORD - y % WORD;
  }

  lemma ModStep(h: nat, m: nat, k: nat)
    ensures (h % WORD * m + k) % WORD == (h * m + k) % WORD
  {
    var q := h / WORD;
    assert h == q * WORD + h % WORD;
    assert h * m + k == (h % WORD * m + k) + (q * m) * WORD by {
      assert (q * WORD + h % WORD) * m == (q * m) * WORD + h % WORD * m;
    }
    ModOfSum(h % WORD * m + k, q * m);
  }

  lemma WrapRight(x: nat, y: nat)
    ensures (x + y) % WORD == (x + y % WORD) % WORD
  {
    ModOfSum(x + y % WORD, y / WORD);
    assert y == y / WORD * WORD + y % WORD;
  }

  lemma WrapSum(x: nat, m: nat, y: nat)
    ensures (x * m + y) % WORD == (x % WORD * m + y % WORD) % WORD
  {
    ModStep(x, m, y % WORD);
    WrapRight(x * m, y);
  }

  /** The hash of a concatenation, from the hashes of its parts, in wrapped 64-bit arithmetic. */
  lemma HashConcat(a: Key, b: Key)
    ensures HashOf(a + b) == (HashOf(a) * Pow63(|b|) + HashOf(b)) % WORD
  {
    hide Poly, Pow63;
    PolyConcat(a, b);
    WrapSum(Poly(a), Pow63(|b|), Poly(b));
  }

  /** The hash does not tell keys apart: "b." and "am" share a directory. */
  lemma HashCollides()
    ensures HashOf([98, 46]) == HashOf([97, 109]) && IsFileKey([98, 46]) && IsFileKey([97, 109])
  {
    assert Pow63(1) == 63 * Pow63(0) == 63;
    assert [98, 46][1..] == [46] && [97, 109][1..] == [109] && [46][1..] == [] && [109][1..] == [];
    assert Poly([46]) == 46 && Poly([109]) == 109;
    assert Poly([98, 46]) == 98 * 63 + 46 && Poly([97, 109]) == 97 * 63 + 109;
  }

  lemma PolySnoc(s: Key, c: byte)
    ensures Poly(s + [c]) == Poly(s) * 63 + c
  {
    PolyConcat(s, [c]);
    assert Pow63(1) == 63 * Pow63(0) && Poly([c]) == c * Pow63(0) + Poly([c][1..]);
  }

  /** The accumulator loop, wrapping at every step, computes the polynomial reduced once. */
  method StrHash(s: Key) returns (h: nat)
    ensures h == HashOf(s)
  {
    h := 0;
    for i := 0 to |s|
      invariant h == HashOf(s[..i])
    {
      hide Poly;
      assert s[..i + 1] == s[..i] + [s[i]];
      PolySnoc(s[..i], s[i]);
      ModStep(Poly(s[..i]), 63, s[i]);
      h := (63 * h + s[i]) % WORD;
    }
    assert s[..|s|] == s;
  }
}
