// The first 64 primes, which the constants of SHA-256 are made from: a table, and why it is complete.
module Primes {

  const PRIMES: seq<seq<nat>> := [
    [2, 3, 5, 7, 11, 13, 17, 19], [23, 29, 31, 37, 41, 43, 47, 53],
    [59, 61, 67, 71, 73, 79, 83, 89], [97, 101, 103, 107, 109, 113, 127, 131],
    [137, 139, 149, 151, 157, 163, 167, 173], [179, 181, 191, 193, 197, 199, 211, 223],
    [227, 229, 233, 239, 241, 251, 257, 263], [269, 271, 277, 281, 283, 293, 307, 311]]

  /** n is the product of two numbers above one. */
  predicate Product(n: nat, d: nat, e: nat) {
    d >= 2 && e >= 2 && n == d * e
  }

  ghost predicate Prime(n: nat) {
    n >= 2 && forall d: nat, e: nat :: !Product(n, d, e)
  }

  ghost function PrimesBelow(n: nat): nat {
    if n == 0 then 0 else PrimesBelow(n - 1) + if Prime(n - 1) then 1 else 0
  }

  /** p is prime, and t primes are smaller. */
  ghost predicate NthPrime(t: nat, p: nat) {
    Prime(p) && PrimesBelow(p) == t
  }

  /** None of the primes up to 17 divides n, save n itself. */
  predicate NoSmallFactor(n: nat) {
    n >= 2 && (n == 2 || n % 2 != 0) && (n == 3 || n % 3 != 0) && (n == 5 || n % 5 != 0) && (n == 7 || n % 7 != 0)
    && (n == 11 || n % 11 != 0) && (n == 13 || n % 13 != 0) && (n == 17 || n % 17 != 0)
  }

  lemma SmallProduct(n: nat, d: nat, e: nat)
    requires Product(n, d, e) && d < 19
    ensures !NoSmallFactor(n)
  {
    match d {
      case 2 => Barred(n, 2, e);
      case 3 => Barred(n, 3, e);
      case 4 => Barred(n, 2, 2 * e);
      case 5 => Barred(n, 5, e);
      case 6 => Barred(n, 2, 3 * e);
      case 7 => Barred(n, 7, e);
      case 8 => Barred(n, 2, 4 * e);
      case 9 => Barred(n, 3, 3 * e);
      case 10 => Barred(n, 2, 5 * e);
      case 11 => Barred(n, 11, e);
      case 12 => Barred(n, 2, 6 * e);
      case 13 => Barred(n, 13, e);
      case 14 => Barred(n, 2, 7 * e);
      case 15 => Barred(n, 3, 5 * e);
      case 16 => Barred(n, 2, 8 * e);
      case 17 => Barred(n, 17, e);
      case _ => Barred(n, 2, 9 * e);
    }
  }

  lemma Barred(n: nat, p: nat, e: nat)
    requires p in [2, 3, 5, 7, 11, 13, 17] && n == p * e && e >= 2
    ensures !NoSmallFactor(n)
  {
    MultipleMod(p, e);
    assert n != p;
  }

  lemma MultipleMod(p: nat, e: nat)
    requires p in [2, 3, 5, 7, 11, 13, 17]
    ensures (p * e) % p == 0
  {
    assert (2 * e) % 2 == 0 && (3 * e) % 3 == 0 && (5 * e) % 5 == 0 && (7 * e) % 7 == 0;
    assert (11 * e) % 11 == 0 && (13 * e) % 13 == 0 && (17 * e) % 17 == 0;
  }

  lemma Square19(d: nat, e: nat)
    requires d >= 19 && e >= 19
    ensures d * e >= 361
  {
  }

  /** Below 19 * 19 trial division by seven primes decides primality. */
  lemma TrialDivision(n: nat)
    requires n < 361
    ensures Prime(n) <==> NoSmallFactor(n)
  {
    if NoSmallFactor(n) {
      forall d: nat, e: nat
        ensures !Product(n, d, e)
      {
        if Product(n, d, e) {
          if d >= 19 && e >= 19 { Square19(d, e); }
          if d < 19 { SmallProduct(n, d, e); } else { assert Product(n, e, d); SmallProduct(n, e, d); }
        }
      }
    } else if n >= 2 {
      var p: nat := if n % 2 == 0 && n > 2 then 2 else if n % 3 == 0 && n > 3 then 3
                    else if n % 5 == 0 && n > 5 then 5 else if n % 7 == 0 && n > 7 then 7
                    else if n % 11 == 0 && n > 11 then 11 else if n % 13 == 0 && n > 13 then 13 else 17;
      assert Product(n, p, n / p);
    }
  }

  /** Every number between p and q has a small factor. */
  predicate Gap(p: nat, q: nat)
    decreases q - p
  {
    p + 1 >= q || (!NoSmallFactor(p + 1) && Gap(p + 1, q))
  }

  lemma {:induction false} NoPrimeInGap(p: nat, q: nat)
    requires p < q < 361 && Gap(p, q)
    ensures PrimesBelow(q) == PrimesBelow(p + 1)
    decreases q - p
  {
    hide NoSmallFactor, Prime;
    if p + 1 < q {
      TrialDivision(p + 1);
      NoPrimeInGap(p + 1, q);
    }
  }

  /** From one prime to the next. */
  lemma NextPrime(t: nat, p: nat, q: nat)
    requires NthPrime(t, p) && p < q < 361 && Gap(p, q) && NoSmallFactor(q)
    ensures NthPrime(t + 1, q)
  {
    hide NoSmallFactor, Prime;
    TrialDivision(q);
    NoPrimeInGap(p, q);
  }

  // ---------- the table, from each prime to the next ----------

  lemma Row0()
    requires NthPrime(0, 2)
    ensures forall j: nat | j < 8 :: NthPrime(0 + j, PRIMES[0][j])
    ensures NthPrime(8, 23)
  {
    hide Prime, NthPrime;
    NextPrime(0, 2, 3);
    NextPrime(1, 3, 5);
    NextPrime(2, 5, 7);
    NextPrime(3, 7, 11);
    NextPrime(4, 11, 13);
    NextPrime(5, 13, 17);
    NextPrime(6, 17, 19);
    NextPrime(7, 19, 23);
  }

  lemma Row1()
    requires NthPrime(8, 23)
    ensures forall j: nat | j < 8 :: NthPrime(8 + j, PRIMES[1][j])
    ensures NthPrime(16, 59)
  {
    hide Prime, NthPrime;
    NextPrime(8, 23, 29);
    NextPrime(9, 29, 31);
    NextPrime(10, 31, 37);
    NextPrime(11, 37, 41);
    NextPrime(12, 41, 43);
    NextPrime(13, 43, 47);
    NextPrime(14, 47, 53);
    NextPrime(15, 53, 59);
  }

  lemma Row2()
    requires NthPrime(16, 59)
    ensures forall j: nat | j < 8 :: NthPrime(16 + j, PRIMES[2][j])
    ensures NthPrime(24, 97)
  {
    hide Prime, NthPrime;
    NextPrime(16, 59, 61);
    NextPrime(17, 61, 67);
    NextPrime(18, 67, 71);
    NextPrime(19, 71, 73);
    NextPrime(20, 73, 79);
    NextPrime(21, 79, 83);
    NextPrime(22, 83, 89);
    NextPrime(23, 89, 97);
  }

  lemma Row3()
    requires NthPrime(24, 97)
    ensures forall j: nat | j < 8 :: NthPrime(24 + j, PRIMES[3][j])
    ensures NthPrime(32, 137)
  {
    hide Prime, NthPrime;
    NextPrime(24, 97, 101);
    NextPrime(25, 101, 103);
    NextPrime(26, 103, 107);
    NextPrime(27, 107, 109);
    NextPrime(28, 109, 113);
    NextPrime(29, 113, 127);
    NextPrime(30, 127, 131);
    NextPrime(31, 131, 137);
  }

  lemma Row4()
    requires NthPrime(32, 137)
    ensures forall j: nat | j < 8 :: NthPrime(32 + j, PRIMES[4][j])
    ensures NthPrime(40, 179)
  {
    hide Prime, NthPrime;
    NextPrime(32, 137, 139);
    NextPrime(33, 139, 149);
    NextPrime(34, 149, 151);
    NextPrime(35, 151, 157);
    NextPrime(36, 157, 163);
    NextPrime(37, 163, 167);
    NextPrime(38, 167, 173);
    NextPrime(39, 173, 179);
  }

  lemma Row5()
    requires NthPrime(40, 179)
    ensures forall j: nat | j < 8 :: NthPrime(40 + j, PRIMES[5][j])
    ensures NthPrime(48, 227)
  {
    hide Prime, NthPrime;
    NextPrime(40, 179, 181);
    NextPrime(41, 181, 191);
    NextPrime(42, 191, 193);
    NextPrime(43, 193, 197);
    NextPrime(44, 197, 199);
    NextPrime(45, 199, 211);
    NextPrime(46, 211, 223);
    NextPrime(47, 223, 227);
  }

  lemma Row6()
    requires NthPrime(48, 227)
    ensures forall j: nat | j < 8 :: NthPrime(48 + j, PRIMES[6][j])
    ensures NthPrime(56, 269)
  {
    hide Prime, NthPrime;
    NextPrime(48, 227, 229);
    NextPrime(49, 229, 233);
    NextPrime(50, 233, 239);
    NextPrime(51, 239, 241);
    NextPrime(52, 241, 251);
    NextPrime(53, 251, 257);
    NextPrime(54, 257, 263);
    NextPrime(55, 263, 269);
  }

  lemma Row7()
    requires NthPrime(56, 269)
    ensures forall j: nat | j < 8 :: NthPrime(56 + j, PRIMES[7][j])
    ensures NthPrime(64, 313)
  {
    hide Prime, NthPrime;
    NextPrime(56, 269, 271);
    NextPrime(57, 271, 277);
    NextPrime(58, 277, 281);
    NextPrime(59, 281, 283);
    NextPrime(60, 283, 293);
    NextPrime(61, 293, 307);
    NextPrime(62, 307, 311);
    NextPrime(63, 311, 313);
  }

  lemma FirstPrime()
    ensures NthPrime(0, 2)
  {
    TrialDivision(2);
    assert !Prime(0) && !Prime(1);
  }

  /** The table holds the first 64 primes, in order. */
  lemma PrimesInOrder(t: nat)
    requires t < 64
    ensures |PRIMES| == 8 && |PRIMES[t / 8]| == 8 && NthPrime(t, PRIMES[t / 8][t % 8])
  {
    hide NthPrime, Prime;
    FirstPrime();
    Row0();
    Row1();
    Row2();
    Row3();
    Row4();
    Row5();
    Row6();
    Row7();
    var r, j := t / 8, t % 8;
    match r {
      case 0 => case 1 => case 2 => case 3 => case 4 => case 5 => case 6 => case _ =>
    }
    assert t == 8 * r + j;
  }
}
