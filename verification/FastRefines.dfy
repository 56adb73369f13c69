/**
 The fast reductions give the very words that the reduction by shifting and subtracting
 gives.
 */
module FastRefines {
  import opened Vli
  import opened Product
  import opened FastReduce
  import Mmod

  lemma Base64()
    ensures Pow(2, 64) == B
  {
    assert Pow(2, 8) == 256;
    PowAdd(2, 8, 8);
    PowAdd(2, 16, 16);
    PowAdd(2, 32, 32);
  }

  /** Reduces a copy of product with uECC_vli_mmod. */
  method Slow(product: array<nat>, mod: array<nat>, n: nat) returns (r: array<nat>)
    requires 0 < n == mod.Length && product.Length == 2 * n && Words(product[..], B) && Words(mod[..], B)
    requires mod[n - 1] != 0
    ensures fresh(r) && r.Length == n && Words(r[..], B) && Val(mod[..], B) > 0
    ensures Val(r[..], B) == Val(product[..], B) % Val(mod[..], B)
  {
    hide Val, Words, Pow;
    Base64();
    var copy := new nat[2 * n];
    Set(copy, product, 2 * n);
    assert copy[..] == copy[..2 * n] == product[..2 * n] == product[..];
    assert mod[..n] == mod[..];
    r := new nat[n];
    Mmod.Reduce(r, copy, mod, n, 64);
    assert r[..n] == r[..];
  }

  method Same192(product: array<nat>, mod: array<nat>) returns (fast: array<nat>, slow: array<nat>)
    requires product.Length == 6 && mod.Length == 3 && mod[..] == WORDS192 && Words(product[..], B)
    ensures fast[..] == slow[..] && Val(slow[..], B) == Val(product[..], B) % P192
  {
    hide Val, Words, Pow;
    PrimeWords();
    fast := new nat[3];
    Mod192(fast, product, mod);
    slow := Slow(product, mod, 3);
    ValUnique(fast[..], slow[..], B);
  }

  method Same224(product: array<nat>, mod: array<nat>) returns (fast: array<nat>, slow: array<nat>)
    requires product.Length == 8 && mod.Length == 4 && mod[..] == WORDS224 && Words(product[..], B) && product[7] == 0
    ensures fast[..] == slow[..] && Val(slow[..], B) == Val(product[..], B) % P224
  {
    hide Val, Words, Pow;
    PrimeWords();
    fast := new nat[4];
    Mod224(fast, product, mod);
    slow := Slow(product, mod, 4);
    ValUnique(fast[..], slow[..], B);
  }

  method Same256(product: array<nat>, mod: array<nat>) returns (fast: array<nat>, slow: array<nat>)
    requires product.Length == 8 && mod.Length == 4 && mod[..] == WORDS256 && Words(product[..], B)
    ensures fast[..] == slow[..] && Val(slow[..], B) == Val(product[..], B) % P256
  {
    hide Val, Words, Pow;
    PrimeWords();
    fast := new nat[4];
    Mod256(fast, product, mod);
    slow := Slow(product, mod, 4);
    ValUnique(fast[..], slow[..], B);
  }
}
