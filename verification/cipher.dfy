/** `cipher` of lib/security.py: XOR of a text with a password stretched to the text's length.

    Characters are Unicode code points, naturals below 0x110000. The password is repeated as many
    whole times as fit and the remainder is filled with the character `'0'` (0x30), not with a
    prefix of the password. `chr` rejects an XOR result above 0x10FFFF, and an empty password
    divides by zero; both are failures here. */
module Cipher {
  import opened Wrappers

  const CodePointLimit: nat := 0x110000
  const ZeroChar: nat := 0x30

  type CodePoint = c: nat | c < CodePointLimit

  datatype CipherError =
    | EmptyPassword   // the password length is a divisor: Python's ZeroDivisionError
    | NotACodePoint   // `chr` of a value above 0x10FFFF: ValueError

  /** Bitwise exclusive or of two naturals, lowest bit first. */
  function Xor(a: nat, b: nat): (r: nat)
    ensures r <= a + b
    ensures r == 0 <==> a == b
    decreases a + b
  {
    if a == 0 && b == 0 then 0
    else 2 * Xor(a / 2, b / 2) + (if a % 2 == b % 2 then 0 else 1)
  }

  /** The bit-by-bit equation of `Xor`, including at zero. */
  lemma XorStep(a: nat, b: nat)
    ensures Xor(a, b) == 2 * Xor(a / 2, b / 2) + (if a % 2 == b % 2 then 0 else 1)
    ensures Xor(a, b) / 2 == Xor(a / 2, b / 2)
    ensures Xor(a, b) % 2 == if a % 2 == b % 2 then 0 else 1
  {
  }

  /** XOR with the same key twice gives the original back. */
  lemma {:induction false} XorInvolution(a: nat, b: nat)
    ensures Xor(Xor(a, b), b) == a
    decreases a + b
  {
    var c := Xor(a, b);
    XorStep(a, b);
    XorStep(c, b);
    if a != 0 || b != 0 {
      XorInvolution(a / 2, b / 2);
    }
  }

  /** XOR is symmetric. */
  lemma {:induction false} XorCommutative(a: nat, b: nat)
    ensures Xor(a, b) == Xor(b, a)
    decreases a + b
  {
    if a != 0 || b != 0 {
      XorCommutative(a / 2, b / 2);
    }
  }

  /** The password repeated `k` times. */
  function Repeat(p: seq<CodePoint>, k: nat): (r: seq<CodePoint>)
    ensures |r| == |p| * k
    ensures forall i :: 0 <= i < |r| ==> |p| > 0 && r[i] == p[i % |p|]
  {
    if |p| == 0 then [] else seq(|p| * k, i requires 0 <= i < |p| * k => p[i % |p|])
  }

  /** The key for a text of length `n`: as many whole copies of the password as fit in `n`,
      then the character `'0'` for the remaining positions. */
  function Pad(p: seq<CodePoint>, n: nat): (r: seq<CodePoint>)
    requires |p| > 0
    ensures |r| == n
    ensures forall i :: 0 <= i < n ==> r[i] == KeyAt(p, n, i)
  {
    var whole := Repeat(p, n / |p|);
    assert |whole| + n % |p| == n;
    whole + seq(n % |p|, _ => ZeroChar as CodePoint)
  }

  /** The key character at position `i` of a text of length `n`: the password, cycled, over the
      whole repetitions; the character `'0'` over the remaining tail. */
  function KeyAt(p: seq<CodePoint>, n: nat, i: nat): CodePoint
    requires |p| > 0
  {
    if i < |p| * (n / |p|) then p[i % |p|] else ZeroChar
  }

  /** The padded password is whole copies of the password followed by a run of `'0'` shorter
      than the password. */
  lemma PadIsCopiesThenZeros(p: seq<CodePoint>, n: nat)
    requires |p| > 0
    ensures forall j :: 0 <= j < n / |p| ==> j * |p| + |p| <= n && Pad(p, n)[j * |p|..j * |p| + |p|] == p
    ensures |p| * (n / |p|) <= n < |p| * (n / |p|) + |p|
    ensures forall i :: |p| * (n / |p|) <= i < n ==> Pad(p, n)[i] == ZeroChar
  {
    var q := |p|;
    var whole := q * (n / q);
    assert n == whole + n % q;
    forall j | 0 <= j < n / q ensures j * q + q <= n && Pad(p, n)[j * q..j * q + q] == p {
      BlockInside(j, q, n / q);
      forall k | 0 <= k < q ensures Pad(p, n)[j * q + k] == p[k] {
        BlockOffset(j, q, k);
      }
    }
  }

  /** Block `j` of `count` blocks of width `q` lies inside the first `q * count` positions. */
  lemma {:induction false} BlockInside(j: nat, q: nat, count: nat)
    requires j < count
    ensures j * q + q <= q * count
    decreases count - j
  {
    if j + 1 < count {
      BlockInside(j + 1, q, count);
      assert (j + 1) * q == j * q + q;
    } else {
      assert q * count == j * q + q;
    }
  }

  /** The position `k` of block `j` is `k` modulo the block width. */
  lemma BlockOffset(j: nat, q: nat, k: nat)
    requires k < q
    ensures (j * q + k) % q == k && (j * q + k) / q == j
  {
    var y := j * q + k;
    var d := y / q - j;
    assert q * d == k - y % q;
  }

  /** XOR position by position, failing where a result is not a code point. */
  function XorAll(a: seq<CodePoint>, key: seq<CodePoint>): (r: Result<seq<CodePoint>, CipherError>)
    requires |a| == |key|
    ensures r.Failure? <==> exists i :: 0 <= i < |a| && Xor(a[i], key[i]) >= CodePointLimit
    ensures r.Failure? ==> r.error == NotACodePoint
    ensures r.Success? ==> |r.value| == |a| && forall i :: 0 <= i < |a| ==> r.value[i] == Xor(a[i], key[i])
    decreases |a|
  {
    if |a| == 0 then Success([])
    else
      var x := Xor(a[0], key[0]);
      var rest := XorAll(a[1..], key[1..]);
      if x >= CodePointLimit then Failure(NotACodePoint)
      else if rest.Failure? then
        assert exists i :: 0 <= i < |a[1..]| && Xor(a[1..][i], key[1..][i]) >= CodePointLimit;
        var i :| 0 <= i < |a[1..]| && Xor(a[1..][i], key[1..][i]) >= CodePointLimit;
        assert Xor(a[i + 1], key[i + 1]) >= CodePointLimit;
        rest
      else
        var r := [x as CodePoint] + rest.value;
        assert forall i :: 1 <= i < |a| ==> r[i] == Xor(a[i], key[i]) by {
          forall i | 1 <= i < |a| ensures r[i] == Xor(a[i], key[i]) {
            assert r[i] == rest.value[i - 1] && a[1..][i - 1] == a[i] && key[1..][i - 1] == key[i];
          }
        }
        Success(r)
  }

  /** `cipher(crypt, passwd)`. */
  function Cipher(crypt: seq<CodePoint>, passwd: seq<CodePoint>): (r: Result<seq<CodePoint>, CipherError>)
    ensures |passwd| == 0 <==> r == Failure(EmptyPassword)
    ensures |passwd| > 0 ==>
              (r.Failure? <==> exists i :: 0 <= i < |crypt| && Xor(crypt[i], KeyAt(passwd, |crypt|, i)) >= CodePointLimit)
    ensures r.Success? ==> |r.value| == |crypt|
    ensures r.Success? ==> forall i :: 0 <= i < |crypt| ==> r.value[i] == Xor(crypt[i], KeyAt(passwd, |crypt|, i))
  {
    if |passwd| == 0 then Failure(EmptyPassword)
    else XorAll(crypt, Pad(passwd, |crypt|))
  }

  /** Ciphering twice with the same password gives the text back, which is what lets the same
      function both encrypt and decrypt. */
  lemma CipherInvolution(crypt: seq<CodePoint>, passwd: seq<CodePoint>)
    requires Cipher(crypt, passwd).Success?
    ensures Cipher(Cipher(crypt, passwd).value, passwd) == Success(crypt)
  {
    var r := Cipher(crypt, passwd).value;
    var back := Cipher(r, passwd);
    forall i | 0 <= i < |r| ensures Xor(r[i], KeyAt(passwd, |r|, i)) == crypt[i] {
      XorInvolution(crypt[i], KeyAt(passwd, |crypt|, i));
    }
    assert back.Success?;
    assert back.value == crypt;
  }

  /** An empty text ciphers to an empty text under any non-empty password. */
  lemma CipherEmpty(passwd: seq<CodePoint>)
    requires |passwd| > 0
    ensures Cipher([], passwd) == Success([])
  {
  }

  /** As written, a password longer than the text is never used: the whole key is the `'0'`
      tail, so every such password ciphers the text the same way, and any of them decrypts. */
  lemma LongPasswordIgnored(crypt: seq<CodePoint>, p: seq<CodePoint>, q: seq<CodePoint>)
    requires |p| > |crypt| && |q| > |crypt|
    ensures Cipher(crypt, p) == Cipher(crypt, q)
  {
    var n := |crypt|;
    assert n / |p| == 0 && n / |q| == 0;
    assert Pad(p, n) == Pad(q, n) by {
      forall i | 0 <= i < n ensures Pad(p, n)[i] == Pad(q, n)[i] {
        assert KeyAt(p, n, i) == ZeroChar == KeyAt(q, n, i);
      }
    }
  }

  /** A concrete instance: the text "a" under the passwords "xy" and "qq". */
  lemma LongPasswordExample()
    ensures Cipher([0x61], [0x78, 0x79]) == Cipher([0x61], [0x71, 0x71])
  {
    LongPasswordIgnored([0x61], [0x78, 0x79], [0x71, 0x71]);
  }

  /** The key the cipher evidently means: the password cycled over the whole text. */
  function CycledKey(p: seq<CodePoint>, n: nat): (r: seq<CodePoint>)
    requires |p| > 0
    ensures |r| == n && forall i :: 0 <= i < n ==> r[i] == p[i % |p|]
  {
    seq(n, i requires 0 <= i < n => p[i % |p|])
  }

  /** `cipher` with the cycled key. */
  function CycledCipher(crypt: seq<CodePoint>, passwd: seq<CodePoint>): (r: Result<seq<CodePoint>, CipherError>)
    ensures |passwd| == 0 <==> r == Failure(EmptyPassword)
    ensures r.Success? ==> |r.value| == |crypt|
    ensures r.Success? ==> forall i :: 0 <= i < |crypt| ==> r.value[i] == Xor(crypt[i], passwd[i % |passwd|])
  {
    if |passwd| == 0 then Failure(EmptyPassword)
    else XorAll(crypt, CycledKey(passwd, |crypt|))
  }

  /** The cycled cipher is still its own inverse. */
  lemma CycledCipherInvolution(crypt: seq<CodePoint>, passwd: seq<CodePoint>)
    requires CycledCipher(crypt, passwd).Success?
    ensures CycledCipher(CycledCipher(crypt, passwd).value, passwd) == Success(crypt)
  {
    var r := CycledCipher(crypt, passwd).value;
    var back := CycledCipher(r, passwd);
    forall i | 0 <= i < |r| ensures Xor(r[i], CycledKey(passwd, |r|)[i]) == crypt[i] {
      XorInvolution(crypt[i], passwd[i % |passwd|]);
    }
    assert back.Success?;
    assert back.value == crypt;
  }

  /** XOR with a fixed value is one-to-one in the key. */
  lemma XorKeyInjective(c: nat, a: nat, b: nat)
    ensures Xor(c, a) == Xor(c, b) ==> a == b
  {
    XorCommutative(c, a);
    XorCommutative(c, b);
    XorInvolution(a, c);
    XorInvolution(b, c);
  }

  /** With the cycled key the password matters: two different passwords of the same length, no
      longer than the text, never cipher it the same way. */
  lemma CycledCipherUsesPassword(crypt: seq<CodePoint>, p: seq<CodePoint>, q: seq<CodePoint>)
    requires 0 < |p| == |q| <= |crypt| && p != q
    requires CycledCipher(crypt, p).Success? && CycledCipher(crypt, q).Success?
    ensures CycledCipher(crypt, p) != CycledCipher(crypt, q)
  {
    var i := FirstDifference(p, q);
    CycledWithinPassword(crypt, p, i);
    CycledWithinPassword(crypt, q, i);
    XorKeyInjective(crypt[i], p[i], q[i]);
    assert CycledCipher(crypt, p).value[i] != CycledCipher(crypt, q).value[i];
  }

  /** A position where two different sequences of equal length differ. */
  lemma FirstDifference(p: seq<CodePoint>, q: seq<CodePoint>) returns (i: nat)
    requires |p| == |q| && p != q
    ensures i < |p| && p[i] != q[i]
  {
    i :| 0 <= i < |p| && p[i] != q[i];
  }

  /** Within the first copy of the password, the cycled key is the password itself. */
  lemma CycledWithinPassword(crypt: seq<CodePoint>, p: seq<CodePoint>, i: nat)
    requires i < |p| <= |crypt| && CycledCipher(crypt, p).Success?
    ensures CycledCipher(crypt, p).value[i] == Xor(crypt[i], p[i])
  {
    assert i % |p| == i;
  }

  /** Where the password length divides the text length, both keys agree. */
  lemma CycledAgreesWhenDivides(crypt: seq<CodePoint>, passwd: seq<CodePoint>)
    requires |passwd| > 0 && |crypt| % |passwd| == 0
    ensures Cipher(crypt, passwd) == CycledCipher(crypt, passwd)
  {
    assert Pad(passwd, |crypt|) == CycledKey(passwd, |crypt|);
  }
}
