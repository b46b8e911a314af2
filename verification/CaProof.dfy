/** The proof that authenticates a control plane's CA to a new host: the bytes
    fed to the MAC, and the comparison of two proofs. The MAC itself is a
    parameter. */
module CaProof {
  import opened Text
  import opened Utf8

  // ----- Framing ----------------------------------------------------------

  function Pow256(k: nat): nat { if k == 0 then 1 else 256 * Pow256(k - 1) }

  /** The low `k` bytes of `n`, most significant first. */
  function BigEndian(n: nat, k: nat): (r: seq<byte>)
    ensures |r| == k
  {
    if k == 0 then [] else BigEndian(n / 256, k - 1) + [n % 256]
  }

  lemma {:induction false} BigEndianInjective(m: nat, n: nat, k: nat)
    requires m < Pow256(k) && n < Pow256(k) && BigEndian(m, k) == BigEndian(n, k)
    ensures m == n
  {
    if k > 0 {
      var a, b := BigEndian(m, k), BigEndian(n, k);
      assert a[..k - 1] == BigEndian(m / 256, k - 1) && b[..k - 1] == BigEndian(n / 256, k - 1);
      assert a[k - 1] == m % 256 && b[k - 1] == n % 256;
      BigEndianInjective(m / 256, n / 256, k - 1);
    }
  }

  /** The number some bytes stand for, the first one weighing most. */
  function Value(bs: seq<byte>): nat {
    if bs == [] then 0 else bs[0] * Pow256(|bs| - 1) + Value(bs[1..])
  }

  lemma {:induction false} ValueAppend(bs: seq<byte>, b: byte)
    ensures Value(bs + [b]) == Value(bs) * 256 + b
  {
    if bs == [] {
      assert [b][1..] == [] && Value([b]) == b * Pow256(0) + Value([]);
    } else {
      ValueAppend(bs[1..], b);
      assert (bs + [b])[1..] == bs[1..] + [b];
      var n, p := bs[0], Pow256(|bs| - 1);
      assert Pow256(|bs|) == 256 * p;
      assert n * (256 * p) == (n * p) * 256;
    }
  }

  /** The bytes stand for the number, most significant first. */
  lemma {:induction false} BigEndianValue(n: nat, k: nat)
    requires n < Pow256(k)
    ensures Value(BigEndian(n, k)) == n
  {
    if k == 0 {
    } else {
      BigEndianValue(n / 256, k - 1);
      ValueAppend(BigEndian(n / 256, k - 1), n % 256);
    }
  }

  /** Each part preceded by its length as eight bytes. */
  function Frame(parts: seq<seq<byte>>): seq<byte> {
    if parts == [] then [] else BigEndian(|parts[0]|, 8) + parts[0] + Frame(parts[1..])
  }

  predicate FitsU64(parts: seq<seq<byte>>) { forall i :: 0 <= i < |parts| ==> |parts[i]| < Pow256(8) }

  /** Framing loses nothing: equal bytes come from equal parts, and as many. */
  lemma {:induction false} FrameInjective(ps: seq<seq<byte>>, qs: seq<seq<byte>>)
    requires FitsU64(ps) && FitsU64(qs) && Frame(ps) == Frame(qs)
    ensures ps == qs
  {
    if ps == [] || qs == [] {
    } else {
      var p, q, f := ps[0], qs[0], Frame(ps);
      assert f[..8] == BigEndian(|p|, 8) && f[..8] == BigEndian(|q|, 8);
      BigEndianInjective(|p|, |q|, 8);
      assert f[8..8 + |p|] == p && f[8..8 + |q|] == q;
      assert f[8 + |p|..] == Frame(ps[1..]) && f[8 + |q|..] == Frame(qs[1..]);
      FrameInjective(ps[1..], qs[1..]);
      assert ps == [p] + ps[1..] && qs == [q] + qs[1..];
    }
  }

  /** Part by part: eight bytes that stand for the length, then the part. */
  predicate Framed(f: seq<byte>, parts: seq<seq<byte>>)
    decreases |parts|
  {
    if parts == [] then f == [] else
      var n := |parts[0]|;
      |f| >= 8 + n && Value(f[..8]) == n && f[8..8 + n] == parts[0] && Framed(f[8 + n..], parts[1..])
  }

  lemma {:induction false} FrameIsFramed(parts: seq<seq<byte>>)
    requires FitsU64(parts)
    ensures Framed(Frame(parts), parts)
  {
    if parts == [] {
    } else {
      var p, f := parts[0], Frame(parts);
      BigEndianValue(|p|, 8);
      assert f[..8] == BigEndian(|p|, 8) && f[8..8 + |p|] == p && f[8 + |p|..] == Frame(parts[1..]);
      FrameIsFramed(parts[1..]);
    }
  }

  const CONTEXT := "abyssal-arsenal/" + "aat-ca-proof/v1"

  function Bundle(pem: Option<string>): string { if pem.Some? then pem.value else "" }

  function ProofParts(nonce: string, pem: Option<string>): seq<seq<byte>> {
    [Encode(CONTEXT), Encode(nonce), Encode(Bundle(pem))]
  }

  function ProofInput(nonce: string, pem: Option<string>): seq<byte> { Frame(ProofParts(nonce, pem)) }

  /** The bytes given to the MAC, update by update. */
  method FeedParts(parts: seq<seq<byte>>) returns (fed: seq<byte>)
    ensures fed == Frame(parts)
  {
    fed := [];
    for i := 0 to |parts|
      invariant fed + Frame(parts[i..]) == Frame(parts)
    {
      var part := parts[i];
      assert parts[i..][0] == part && parts[i..][1..] == parts[i + 1..];
      assert fed + (BigEndian(|part|, 8) + part + Frame(parts[i + 1..])) ==
             fed + BigEndian(|part|, 8) + part + Frame(parts[i + 1..]);
      fed := fed + BigEndian(|part|, 8);
      fed := fed + part;
    }
  }

  /** The MAC input determines the nonce and the bundle, an absent bundle counted
      as empty, for all lengths that fit in 64 bits. */
  lemma ProofInputDetermines(n1: string, p1: Option<string>, n2: string, p2: Option<string>)
    requires FitsU64(ProofParts(n1, p1)) && FitsU64(ProofParts(n2, p2))
    requires ProofInput(n1, p1) == ProofInput(n2, p2)
    ensures n1 == n2 && Bundle(p1) == Bundle(p2)
  {
    FrameInjective(ProofParts(n1, p1), ProofParts(n2, p2));
    assert ProofParts(n1, p1)[1] == Encode(n1) && ProofParts(n2, p2)[1] == Encode(n2);
    assert ProofParts(n1, p1)[2] == Encode(Bundle(p1)) && ProofParts(n2, p2)[2] == Encode(Bundle(p2));
    EncodeInjective(n1, n2);
    EncodeInjective(Bundle(p1), Bundle(p2));
  }

  /** The MAC input is the framed context, nonce and bundle, in this order. */
  lemma ProofLayout(nonce: string, pem: Option<string>)
    requires FitsU64(ProofParts(nonce, pem))
    ensures var context := "abyssal-arsenal/" + "aat-ca-proof/v1";
            Framed(ProofInput(nonce, pem), [Encode(context), Encode(nonce), Encode(Bundle(pem))])
  {
    FrameIsFramed(ProofParts(nonce, pem));
  }

  // ----- Proofs -----------------------------------------------------------

  /** A lower-case hexadecimal digit, as its ASCII code. */
  function HexCode(n: bv8): bv8 { if n < 10 then 48 + n else 87 + n }

  function Hex(digest: seq<bv8>): seq<bv8> {
    if digest == [] then [] else [HexCode(digest[0] >> 4), HexCode(digest[0] & 15)] + Hex(digest[1..])
  }

  lemma HexCodeInjective(a: bv8, b: bv8)
    requires HexCode(a >> 4) == HexCode(b >> 4) && HexCode(a & 15) == HexCode(b & 15)
    ensures a == b
  {
  }

  lemma HexHead(a: seq<bv8>)
    requires a != []
    ensures |Hex(a)| >= 2 && Hex(a)[0] == HexCode(a[0] >> 4) && Hex(a)[1] == HexCode(a[0] & 15)
    ensures Hex(a)[2..] == Hex(a[1..])
  {
  }

  lemma {:induction false} HexInjective(a: seq<bv8>, b: seq<bv8>)
    requires Hex(a) == Hex(b)
    ensures a == b
  {
    if a != [] && b != [] {
      HexHead(a);
      HexHead(b);
      HexCodeInjective(a[0], b[0]);
      HexInjective(a[1..], b[1..]);
      assert a == [a[0]] + a[1..] && b == [b[0]] + b[1..];
    }
  }

  /** What a lower-case hexadecimal digit stands for. */
  function HexDigitValue(c: bv8): bv8 { if 97 <= c <= 102 then c - 87 else if 48 <= c <= 57 then c - 48 else 255 }

  /** Two digits a byte, the high half first. */
  lemma {:induction false} HexReads(digest: seq<bv8>, i: nat)
    requires i < |digest|
    ensures |Hex(digest)| == 2 * |digest|
    ensures (HexDigitValue(Hex(digest)[2 * i]) << 4) | HexDigitValue(Hex(digest)[2 * i + 1]) == digest[i]
  {
    HexHead(digest);
    HexLength(digest);
    if i == 0 {
      HexCodeReads(digest[0]);
    } else {
      HexReads(digest[1..], i - 1);
      assert Hex(digest)[2 * i] == Hex(digest)[2..][2 * (i - 1)];
      assert Hex(digest)[2 * i + 1] == Hex(digest)[2..][2 * (i - 1) + 1];
    }
  }

  lemma {:induction false} HexLength(digest: seq<bv8>)
    ensures |Hex(digest)| == 2 * |digest|
  {
    if digest == [] {
    } else {
      HexLength(digest[1..]);
    }
  }

  lemma HexCodeReads(b: bv8)
    ensures (HexDigitValue(HexCode(b >> 4)) << 4) | HexDigitValue(HexCode(b & 15)) == b
  {
  }

  type Mac = (seq<byte>, seq<byte>) -> seq<bv8>

  function Proof(mac: Mac, aat: string, nonce: string, pem: Option<string>): seq<bv8> {
    Hex(mac(Encode(aat), ProofInput(nonce, pem)))
  }

  lemma PrefixesExtend<T>(a: seq<T>, b: seq<T>, i: nat)
    requires i < |a| && i < |b|
    ensures a[..i + 1] == b[..i + 1] <==> a[..i] == b[..i] && a[i] == b[i]
  {
    assert a[..i + 1] == a[..i] + [a[i]] && b[..i + 1] == b[..i] + [b[i]];
  }

  lemma AccumulateZero(acc: bv8, a: bv8, b: bv8)
    ensures acc | (a ^ b) == 0 <==> acc == 0 && a == b
  {
  }

  /** The comparison folds every difference into one byte; it accepts exactly
      the right proof. */
  method VerifyCaProof(mac: Mac, aat: string, nonce: string, pem: Option<string>, proof: seq<bv8>)
    returns (ok: bool)
    ensures ok <==> proof == Proof(mac, aat, nonce, pem)
  {
    var input := FeedParts(ProofParts(nonce, pem));
    var expected := Hex(mac(Encode(aat), input));
    if |expected| != |proof| {
      return false;
    }
    var acc: bv8 := 0;
    for i := 0 to |expected|
      invariant acc == 0 <==> expected[..i] == proof[..i]
    {
      AccumulateZero(acc, expected[i], proof[i]);
      PrefixesExtend(expected, proof, i);
      acc := acc | (expected[i] ^ proof[i]);
    }
    assert expected[..|expected|] == expected && proof[..|proof|] == proof;
    ok := acc == 0;
  }

  /** A proof made for one nonce and bundle is accepted for another only if the
      MAC itself gives the same digest for two different inputs. */
  lemma AcceptedElsewhereIsCollision(
    mac: Mac, aat: string, n1: string, p1: Option<string>, n2: string, p2: Option<string>)
    requires FitsU64(ProofParts(n1, p1)) && FitsU64(ProofParts(n2, p2))
    requires n1 != n2 || Bundle(p1) != Bundle(p2)
    requires Proof(mac, aat, n1, p1) == Proof(mac, aat, n2, p2)
    ensures ProofInput(n1, p1) != ProofInput(n2, p2)
    ensures mac(Encode(aat), ProofInput(n1, p1)) == mac(Encode(aat), ProofInput(n2, p2))
  {
    HexInjective(mac(Encode(aat), ProofInput(n1, p1)), mac(Encode(aat), ProofInput(n2, p2)));
    if ProofInput(n1, p1) == ProofInput(n2, p2) {
      ProofInputDetermines(n1, p1, n2, p2);
    }
  }
}
