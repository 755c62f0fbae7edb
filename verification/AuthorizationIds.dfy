/** The authorization id is SHA-256 over CBOR(secret id), the ephemeral key and CBOR(consumer),
    concatenated (node/enclave/src/secrets/mod.rs, `calculate_authorization_id`).  The enclave model
    uses the triple itself as the id; here is why that is the same thing, whatever the key's length. */
module AuthorizationIds {
  import opened Bytes
  import opened Enclaves

  // ---------- CBOR as the consumer is written in it (RFC 8949) ----------

  const U64_LIMIT: nat := 0x1_0000_0000_0000_0000

  /** Big-endian, in `width` bytes. */
  function BigEndian(n: nat, width: nat): (b: Bytes)
    ensures |b| == width
  {
    if width == 0 then [] else BigEndian(n / 256, width - 1) + [n % 256]
  }

  /** The head of an array of `n` items, in its shortest form (section 3 of RFC 8949). */
  function ArrayHead(n: nat): (b: Bytes)
    requires n < U64_LIMIT
    ensures 1 <= |b| <= 9 && 0x80 <= b[0] <= 0x9b && (n == 0 ==> b == [0x80])
  {
    if n < 24 then [0x80 + n]
    else if n < 0x100 then [0x98] + BigEndian(n, 1)
    else if n < 0x1_0000 then [0x99] + BigEndian(n, 2)
    else if n < 0x1_0000_0000 then [0x9a] + BigEndian(n, 4)
    else [0x9b] + BigEndian(n, 8)
  }

  /** One byte as an unsigned integer item. */
  function Item(v: byte): (b: Bytes)
    ensures 1 <= |b| <= 2
  {
    if v < 24 then [v] else [24, v]
  }

  function Items(s: Bytes): Bytes {
    if s == [] then [] else Item(s[0]) + Items(s[1..])
  }

  /** A byte vector without special treatment is an array of integers. */
  function ByteArray(s: Bytes): Bytes
    requires |s| < U64_LIMIT
  {
    ArrayHead(|s|) + Items(s)
  }

  /** A map of two entries, and the text `bundle_hash`. */
  const HEAD: Bytes := [0xa2, 0x6b, 0x62, 0x75, 0x6e, 0x64, 0x6c, 0x65, 0x5f, 0x68, 0x61, 0x73, 0x68]

  /** The text `signature`. */
  const MIDDLE: Bytes := [0x69, 0x73, 0x69, 0x67, 0x6e, 0x61, 0x74, 0x75, 0x72, 0x65]

  /** Vectors have fewer than 2^64 elements. */
  predicate Storable(c: ConsumerInfo) {
    |c.bundleHash| < U64_LIMIT && |c.signature| < U64_LIMIT
  }

  function EncodeConsumer(c: ConsumerInfo): Bytes
    requires Storable(c)
  {
    HEAD + (ByteArray(c.bundleHash) + (MIDDLE + ByteArray(c.signature)))
  }

  // ---------- The encoding is injective ----------

  lemma {:induction false} BigEndianInjective(n: nat, m: nat, width: nat)
    requires n < Pow256(width) && m < Pow256(width) && BigEndian(n, width) == BigEndian(m, width)
    ensures n == m
    decreases width
  {
    if width > 0 {
      var a, b := BigEndian(n / 256, width - 1), BigEndian(m / 256, width - 1);
      assert a == (a + [n % 256])[..width - 1] && b == (b + [m % 256])[..width - 1];
      assert (a + [n % 256])[width - 1] == n % 256 && (b + [m % 256])[width - 1] == m % 256;
      BigEndianInjective(n / 256, m / 256, width - 1);
    }
  }

  /** A head is followed by anything and still tells its length. */
  lemma HeadInjective(n: nat, m: nat, r: Bytes, t: Bytes)
    requires n < U64_LIMIT && m < U64_LIMIT && ArrayHead(n) + r == ArrayHead(m) + t
    ensures n == m && r == t
  {
    var x := ArrayHead(n) + r;
    assert x[0] == ArrayHead(n)[0] == ArrayHead(m)[0];
    var k := |ArrayHead(n)|;
    assert |ArrayHead(m)| == k;
    assert x[..k] == ArrayHead(n) == ArrayHead(m) && x[k..] == r == t;
    if n >= 24 {
      assert ArrayHead(n)[1..] == BigEndian(n, k - 1) && ArrayHead(m)[1..] == BigEndian(m, k - 1);
      Pow256Widths();
      assert Pow256(1) == 0x100;
      BigEndianInjective(n, m, k - 1);
    }
  }

  lemma {:induction false} ItemsInjective(s: Bytes, u: Bytes, r: Bytes, t: Bytes)
    requires |s| == |u| && Items(s) + r == Items(u) + t
    ensures s == u && r == t
    decreases |s|
  {
    if s == [] {
      assert Items(s) + r == r && Items(u) + t == t;
    } else {
      var x, a, b := Items(s) + r, Items(s[1..]) + r, Items(u[1..]) + t;
      assert x == Item(s[0]) + a && x == Item(u[0]) + b;
      assert x[0] == Item(s[0])[0] == Item(u[0])[0];
      assert s[0] >= 24 ==> x[1] == s[0];
      assert u[0] >= 24 ==> x[1] == u[0];
      assert s[0] == u[0];
      assert a == x[|Item(s[0])|..] == b;
      ItemsInjective(s[1..], u[1..], r, t);
    }
  }

  lemma ByteArrayInjective(s: Bytes, u: Bytes, r: Bytes, t: Bytes)
    requires |s| < U64_LIMIT && |u| < U64_LIMIT && ByteArray(s) + r == ByteArray(u) + t
    ensures s == u && r == t
  {
    assert ByteArray(s) + r == ArrayHead(|s|) + (Items(s) + r);
    assert ByteArray(u) + t == ArrayHead(|u|) + (Items(u) + t);
    HeadInjective(|s|, |u|, Items(s) + r, Items(u) + t);
    ItemsInjective(s, u, r, t);
  }

  lemma Behind(p: Bytes, x: Bytes, y: Bytes)
    requires p + x == p + y
    ensures x == y
  {
    assert (p + x)[|p|..] == x && (p + y)[|p|..] == y;
  }

  lemma EncodeConsumerInjective(c: ConsumerInfo, d: ConsumerInfo)
    requires Storable(c) && Storable(d) && EncodeConsumer(c) == EncodeConsumer(d)
    ensures c == d
  {
    var x, y := MIDDLE + ByteArray(c.signature), MIDDLE + ByteArray(d.signature);
    Behind(HEAD, ByteArray(c.bundleHash) + x, ByteArray(d.bundleHash) + y);
    ByteArrayInjective(c.bundleHash, d.bundleHash, x, y);
    Behind(MIDDLE, ByteArray(c.signature), ByteArray(d.signature));
    assert ByteArray(c.signature) + [] == ByteArray(d.signature) + [];
    ByteArrayInjective(c.signature, d.signature, [], []);
  }

  // ---------- No encoding is a proper suffix of another ----------

  /** Every item begins with a byte of at most 24, and no two bytes in a row exceed 24. */
  ghost predicate Sparse(b: Bytes) {
    && (b != [] ==> b[0] <= 24)
    && forall i :: 0 <= i < |b| - 1 ==> b[i] <= 24 || b[i + 1] <= 24
  }

  lemma {:induction false} ItemsSparse(s: Bytes)
    ensures Sparse(Items(s)) && |Items(s)| >= |s|
    decreases |s|
  {
    if s != [] {
      ItemsSparse(s[1..]);
      ItemInFront(s[0], Items(s[1..]));
    }
  }

  lemma ItemInFront(v: byte, rest: Bytes)
    requires Sparse(rest)
    ensures Sparse(Item(v) + rest)
  {
    var all, n := Item(v) + rest, |Item(v)|;
    forall i | 0 <= i < |all| - 1 ensures all[i] <= 24 || all[i + 1] <= 24 {
      if i >= n {
        assert all[i] == rest[i - n] && all[i + 1] == rest[i - n + 1];
      }
    }
  }

  /** At position `k`, byte `i` of `HEAD` is not there. */
  ghost predicate Misses(x: Bytes, k: nat, i: nat) {
    i < |HEAD| && (k + i >= |x| || x[k + i] != HEAD[i])
  }

  lemma HeadIsHigh(i: nat)
    requires i < |HEAD|
    ensures HEAD[i] > 24 && (i > 0 ==> HEAD[i] != HEAD[0])
  {
  }

  /** Between `before` and `after`, which does not go on as `HEAD` does, `HEAD` does not begin inside an array. */
  lemma NotInsideArray(before: Bytes, s: Bytes, after: Bytes, k: nat) returns (i: nat)
    requires |s| < U64_LIMIT && (after != [] ==> after[0] != HEAD[1])
    requires |before| <= k < |before| + |ByteArray(s)|
    ensures Misses(before + ByteArray(s) + after, k, i)
  {
    var x, items, start := before + ByteArray(s) + after, Items(s), |before| + |ArrayHead(|s|)|;
    var end := start + |items|;
    ItemsSparse(s);
    assert forall j :: start <= j < end ==> x[j] == items[j - start];
    if s == [] {
      assert x[k] == 0x80;
      i := 0;
    } else if k < start {
      i := start - k;
      HeadIsHigh(i);
    } else if k + 1 < end {
      assert items[k - start] <= 24 || items[k - start + 1] <= 24;
      i := if items[k - start] <= 24 then 0 else 1;
    } else {
      i := 1;
    }
  }

  /** `HEAD` stands in an encoded consumer only at its beginning. */
  lemma HeadOnlyInFront(c: ConsumerInfo, k: nat) returns (i: nat)
    requires Storable(c) && k > 0
    ensures Misses(EncodeConsumer(c), k, i)
  {
    var x, h, s := EncodeConsumer(c), ByteArray(c.bundleHash), ByteArray(c.signature);
    var a, b := |HEAD| + |h|, |HEAD| + |h| + |MIDDLE|;
    assert x == HEAD + h + (MIDDLE + s);
    assert x == (HEAD + h + MIDDLE) + s + [];
    i := 0;
    if k < |HEAD| {
      HeadIsHigh(k);
    } else if k < a {
      i := NotInsideArray(HEAD, c.bundleHash, MIDDLE + s, k);
    } else if k < b {
      assert x[k] == MIDDLE[k - a];
    } else if k < |x| {
      i := NotInsideArray(HEAD + h + MIDDLE, c.signature, [], k);
    }
  }

  lemma BeginsWithHead(p: Bytes, c: ConsumerInfo)
    requires Storable(c)
    ensures forall i :: 0 <= i < |HEAD| ==> !Misses(p + EncodeConsumer(c), |p|, i)
  {
  }

  /** So an encoded consumer ends another only if they are one. */
  lemma ConsumerSuffixFree(p: Bytes, c: ConsumerInfo, d: ConsumerInfo)
    requires Storable(c) && Storable(d) && p + EncodeConsumer(c) == EncodeConsumer(d)
    ensures p == [] && c == d
  {
    BeginsWithHead(p, c);
    if p != [] {
      var i := HeadOnlyInFront(d, |p|);
    } else {
      assert p + EncodeConsumer(c) == EncodeConsumer(c);
      EncodeConsumerInjective(c, d);
    }
  }

  // ---------- The hashed string ----------

  /** A self-delimiting encoding, as CBOR items are: no encoding is a prefix of another's. */
  ghost predicate SelfDelimiting<I(!new)>(encode: I -> Bytes) {
    forall x, y :: encode(x) <= encode(y) ==> x == y
  }

  function Preimage<I>(encodeId: I -> Bytes, key: Bytes, id: I, consumer: ConsumerInfo): Bytes
    requires Storable(consumer)
  {
    encodeId(id) + (key + EncodeConsumer(consumer))
  }

  lemma PrefixOfOne<I(!new)>(encodeId: I -> Bytes, i: I, j: I, x: Bytes, y: Bytes)
    requires SelfDelimiting(encodeId) && encodeId(i) + x == encodeId(j) + y
    ensures i == j && x == y
  {
    var p, a, b := encodeId(i) + x, |encodeId(i)|, |encodeId(j)|;
    assert p[..a] == encodeId(i) && p[..b] == encodeId(j) && p[a..] == x && p[b..] == y;
    assert encodeId(i) <= encodeId(j) || encodeId(j) <= encodeId(i);
  }

  lemma LongerFront(k: Bytes, c: Bytes, l: Bytes, d: Bytes)
    requires k + c == l + d && |k| >= |l|
    ensures k == l + k[|l|..] && k[|l|..] + c == d
  {
    assert k[..|l|] == (k + c)[..|l|] == (l + d)[..|l|] == l;
    assert k[|l|..] + c == (k + c)[|l|..] == (l + d)[|l|..] == d;
  }

  lemma KeyAndConsumer(k: Bytes, c: ConsumerInfo, l: Bytes, d: ConsumerInfo)
    requires Storable(c) && Storable(d) && k + EncodeConsumer(c) == l + EncodeConsumer(d) && |k| >= |l|
    ensures k == l && c == d
  {
    LongerFront(k, EncodeConsumer(c), l, EncodeConsumer(d));
    ConsumerSuffixFree(k[|l|..], c, d);
  }

  /** The hashed string determines secret id, key and consumer, for keys of any lengths. */
  lemma PreimageDeterminesParts<I(!new)>(
    encodeId: I -> Bytes, key1: Bytes, id1: I, consumer1: ConsumerInfo, key2: Bytes, id2: I, consumer2: ConsumerInfo)
    requires SelfDelimiting(encodeId) && Storable(consumer1) && Storable(consumer2)
    ensures Preimage(encodeId, key1, id1, consumer1) == Preimage(encodeId, key2, id2, consumer2)
            <==> key1 == key2 && id1 == id2 && consumer1 == consumer2
  {
    if Preimage(encodeId, key1, id1, consumer1) == Preimage(encodeId, key2, id2, consumer2) {
      PrefixOfOne(encodeId, id1, id2, key1 + EncodeConsumer(consumer1), key2 + EncodeConsumer(consumer2));
      if |key1| >= |key2| {
        KeyAndConsumer(key1, consumer1, key2, consumer2);
      } else {
        KeyAndConsumer(key2, consumer2, key1, consumer1);
      }
    }
  }
}
