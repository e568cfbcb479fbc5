/** The 64-bit string hash that the perfect link keeps instead of message keys. */
module Djb2 {
  import opened Wire

  const WORD := 0x1_0000_0000_0000_0000

  /** A char is signed: bytes from 128 on count as negative. */
  function CharValue(c: char): (v: int)
    ensures -128 <= v < 128 && (v - c as int) % 256 == 0
  {
    var byte := c as int % 256;
    if byte < 128 then byte else byte - 256
  }

  /** The polynomial the hash evaluates, before reduction to a machine word. */
  function Poly(s: string): int {
    if |s| == 0 then 5381 else 33 * Poly(s[..|s| - 1]) + CharValue(s[|s| - 1])
  }

  function Hash(s: string): (h: nat)
    ensures h < WORD
  {
    Poly(s) % WORD
  }

  lemma SameRemainder(x: int, y: int, k: int)
    requires x == y + WORD * k
    ensures x % WORD == y % WORD
  {
  }

  /** Wrapping after the shift and after the sum is wrapping once. */
  lemma WrapStep(p: int, v: int)
    ensures (p % WORD * 32 % WORD + p % WORD + v) % WORD == (33 * p + v) % WORD
  {
    var h := p % WORD;
    var q, t := p / WORD, h * 32 / WORD;
    assert p == WORD * q + h && h * 32 == WORD * t + h * 32 % WORD;
    SameRemainder(33 * p + v, h * 32 % WORD + h + v, 33 * q + t);
  }

  /** Shift, add and wrap around, as unsigned long does. */
  method HashText(s: string) returns (hash: nat)
    ensures hash == Hash(s)
  {
    hash := 5381;
    for i := 0 to |s|
      invariant hash == Hash(s[..i])
    {
      assert s[..i + 1][..i] == s[..i];
      WrapStep(Poly(s[..i]), CharValue(s[i]));
      var shifted := hash * 32 % WORD;
      hash := (shifted + hash + CharValue(s[i])) % WORD;
    }
    assert s[..|s|] == s;
  }

  /** The start value, two letters, and a byte that counts as negative. */
  lemma HashSamples()
    ensures Hash("") == 5381 && Hash("a") == 177670 && Hash("b") == 177671 && Hash("ab") == 5863208
    ensures Hash([233 as char]) == 177573 - 23
  {
    assert "ab"[..1] == "a" && "a"[..0] == "" && "b"[..0] == "";
    assert Poly("a") == 33 * 5381 + 97;
  }

  // ---------------------------------------------------------------- what the polynomial is

  function Power(n: nat): nat {
    if n == 0 then 1 else 33 * Power(n - 1)
  }

  /** The characters weighted by powers of 33, the last one by 1. */
  function Weighted(s: string): int {
    if |s| == 0 then 0 else CharValue(s[0]) * Power(|s| - 1) + Weighted(s[1..])
  }

  lemma {:induction false} WeightedSnoc(s: string, c: char)
    ensures Weighted(s + [c]) == 33 * Weighted(s) + CharValue(c)
  {
    var t := s + [c];
    if |s| == 0 {
      assert t[1..] == "";
    } else {
      assert t[1..] == s[1..] + [c];
      WeightedSnoc(s[1..], c);
      assert CharValue(t[0]) * Power(|s|) == 33 * (CharValue(s[0]) * Power(|s| - 1));
    }
  }

  /** The loop evaluates 5381 * 33^n plus the characters weighted by descending powers of 33. */
  lemma {:induction false} PolyIsWeighted(s: string)
    ensures Poly(s) == 5381 * Power(|s|) + Weighted(s)
  {
    if |s| > 0 {
      var init, last := s[..|s| - 1], s[|s| - 1];
      PolyIsWeighted(init);
      assert s == init + [last];
      WeightedSnoc(init, last);
    }
  }

  // ---------------------------------------------------------------- strings that cannot collide

  /** 33 is odd: multiplying by it loses nothing modulo 2^64. */
  lemma OddFactor(x: int)
    requires 33 * x % WORD == 0
    ensures x % WORD == 0
  {
    var inverse, k := 0x0f83_e0f8_3e0f_83e1, 2;
    assert 33 * inverse == 1 + k * WORD;
    var t := 33 * x / WORD;
    assert 33 * x == WORD * t;
    assert x == WORD * (inverse * t - k * x);
  }

  /** Strings of equal length that differ in exactly one byte never collide. */
  lemma {:induction false} OneCharacterApart(a: string, b: string, k: nat)
    requires |a| == |b| && k < |a| && a[k] != b[k] && a[k] as int < 256 && b[k] as int < 256
    requires forall i :: 0 <= i < |a| && i != k ==> a[i] == b[i]
    ensures Hash(a) != Hash(b)
  {
    SignedBytesDiffer(a[k], b[k]);
    DifferenceSurvives(a, b, k);
    EqualRemainders(Poly(a), Poly(b));
  }

  lemma SignedBytesDiffer(c: char, d: char)
    requires c != d && c as int < 256 && d as int < 256
    ensures CharValue(c) != CharValue(d)
  {
  }

  lemma EqualRemainders(x: int, y: int)
    ensures x % WORD == y % WORD ==> (x - y) % WORD == 0
  {
    if x % WORD == y % WORD {
      SameRemainder(x - y, 0, x / WORD - y / WORD);
    }
  }

  lemma {:induction false} DifferenceSurvives(a: string, b: string, k: nat)
    requires |a| == |b| && k < |a| && CharValue(a[k]) != CharValue(b[k])
    requires forall i :: 0 <= i < |a| && i != k ==> a[i] == b[i]
    ensures (Poly(a) - Poly(b)) % WORD != 0
  {
    var n := |a| - 1;
    if k == n {
      assert a[..n] == b[..n];
      assert -WORD < Poly(a) - Poly(b) < WORD;
    } else {
      DifferenceSurvives(a[..n], b[..n], k);
      assert Poly(a) - Poly(b) == 33 * (Poly(a[..n]) - Poly(b[..n]));
      if (Poly(a) - Poly(b)) % WORD == 0 {
        OddFactor(Poly(a[..n]) - Poly(b[..n]));
      }
    }
  }

  /** The text that is hashed: the sender's rank followed directly by the message id. */
  function Key(sender: nat, id: string): string {
    Cut(Decimal(sender) + id)
  }

  /** With ids of 36 characters (RFC 9562, section 4) the key determines sender and id. */
  lemma KeyInjective(sender: nat, id: string, sender': nat, id': string)
    requires |id| == |id'| == 36
    requires |Decimal(sender)| + 36 <= MAX_TEXT && |Decimal(sender')| + 36 <= MAX_TEXT
    requires Key(sender, id) == Key(sender', id')
    ensures sender == sender' && id == id' && Key(sender, id) == Decimal(sender) + id
  {
    var key := Decimal(sender) + id;
    assert key == Decimal(sender') + id';
    var cut := |key| - 36;
    assert key[..cut] == Decimal(sender) && key[cut..] == id;
    assert key[..cut] == Decimal(sender') && key[cut..] == id';
    DecimalInjective(sender, sender');
  }
}
