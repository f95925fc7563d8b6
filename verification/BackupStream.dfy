/**
 The encrypted backup stream of internal/gateway/operations.go: a magic, a
 12-byte nonce base, then frames of a 4-byte big-endian length and one sealed
 piece. Frame i is sealed under the base with the counter i XORed into its last
 eight bytes, the per-record nonce construction of section 5.3 of RFC 8446.
 */
module BackupStream {
  import opened Wrappers

  type byte = x: int | 0 <= x < 256
  type Bytes = seq<byte>

  const MAGIC: Bytes := [67, 80, 71, 66, 49]   // CPGB1
  const CHUNK := 0x40_0000
  const OVERHEAD := 16
  const NONCE := 12
  const HEADER := 17

  /******* Bytes, XOR and the counter *******/

  function Pow2(n: nat): (r: nat)
    ensures r > 0
  {
    if n == 0 then 1 else 2 * Pow2(n - 1)
  }

  // Exclusive or of the lowest n bits, one bit at a time.
  function XorBits(n: nat, a: nat, b: nat): (r: nat)
    ensures r < Pow2(n)
  {
    if n == 0 then 0 else (a + b) % 2 + 2 * XorBits(n - 1, a / 2, b / 2)
  }

  lemma LastBitCancels(x: nat, a: nat, b: nat, p: nat, q: nat)
    requires (x + a) % 2 + 2 * p == (x + b) % 2 + 2 * q
    ensures p == q && a % 2 == b % 2
  {
  }

  lemma BitAndHalf(a: nat, b: nat)
    requires a % 2 == b % 2 && a / 2 == b / 2
    ensures a == b
  {
  }

  lemma {:induction false} XorBitsCancel(n: nat, x: nat, a: nat, b: nat)
    requires a < Pow2(n) && b < Pow2(n)
    requires XorBits(n, x, a) == XorBits(n, x, b)
    ensures a == b
  {
    if n > 0 {
      var p, q := XorBits(n - 1, x / 2, a / 2), XorBits(n - 1, x / 2, b / 2);
      LastBitCancels(x, a, b, p, q);
      XorBitsCancel(n - 1, x / 2, a / 2, b / 2);
      BitAndHalf(a, b);
    }
  }

  lemma Pow2Of8()
    ensures Pow2(8) == 256
  {
    assert Pow2(4) == 16;
  }

  function Xor(a: byte, b: byte): byte {
    Pow2Of8();
    XorBits(8, a, b)
  }

  // i >> (8 * j)
  function Shifted(i: nat, j: nat): nat
    decreases j
  {
    if j == 0 then i else Shifted(i / 256, j - 1)
  }

  function CounterByte(i: nat, j: nat): byte {
    Shifted(i, j) % 256
  }

  function Pow256(n: nat): (r: nat)
    ensures r > 0
  {
    if n == 0 then 1 else 256 * Pow256(n - 1)
  }

  lemma {:induction false} DigitsDetermine(n: nat, i: nat, k: nat)
    requires forall j :: 0 <= j < n ==> CounterByte(i, j) == CounterByte(k, j)
    ensures i % Pow256(n) == k % Pow256(n)
  {
    if n > 0 {
      assert CounterByte(i, 0) == CounterByte(k, 0);
      forall j | 0 <= j < n - 1
        ensures CounterByte(i / 256, j) == CounterByte(k / 256, j)
      {
        assert CounterByte(i, j + 1) == CounterByte(k, j + 1);
      }
      DigitsDetermine(n - 1, i / 256, k / 256);
      SplitMod(i, Pow256(n - 1));
      SplitMod(k, Pow256(n - 1));
    }
  }

  lemma SplitMod(i: nat, p: nat)
    requires p > 0
    ensures i % (256 * p) == i % 256 + 256 * ((i / 256) % p)
  {
    var q, r, h := i / 256, i % 256, (i / 256) / p;
    assert i == 256 * (h * p + q % p) + r;
    assert i == (256 * p) * h + (256 * (q % p) + r);
    assert 256 * (q % p) + r < 256 * p;
    DivisionIsUnique(i, 256 * p, h, 256 * (q % p) + r);
  }

  lemma DivisionIsUnique(i: nat, m: nat, h: nat, r: nat)
    requires m > 0 && i == m * h + r && r < m
    ensures i % m == r
  {
    var d := i / m - h;
    assert m * d == r - i % m;
    MultipleIsFar(m, d);
  }

  lemma MultipleIsFar(m: int, d: int)
    requires m >= 0
    ensures d >= 1 ==> m * d >= m
    ensures d <= -1 ==> m * d <= -m
  {
  }

  type Nonce = n: Bytes | |n| == NONCE witness seq(NONCE, _ => 0)

  function NonceAt(base: Nonce, i: nat): Nonce {
    seq(NONCE, k requires 0 <= k < NONCE => if k < 4 then base[k] else Xor(base[k], CounterByte(i, 11 - k)))
  }

  /** For any base, two frames share a nonce exactly when their indices agree modulo 2^64;
      in particular the nonces of frames 0..2^64-1 are pairwise distinct. */
  lemma NoncesRepeatOnlyModulo(base: Nonce, i: nat, k: nat)
    ensures NonceAt(base, i) == NonceAt(base, k) <==> i % Pow256(8) == k % Pow256(8)
  {
    if NonceAt(base, i) == NonceAt(base, k) {
      forall j | 0 <= j < 8
        ensures CounterByte(i, j) == CounterByte(k, j)
      {
        assert NonceAt(base, i)[11 - j] == NonceAt(base, k)[11 - j];
        Pow2Of8();
        XorBitsCancel(8, base[11 - j], CounterByte(i, j), CounterByte(k, j));
      }
      DigitsDetermine(8, i, k);
    }
    if i % Pow256(8) == k % Pow256(8) {
      forall j | 0 <= j < 8
        ensures CounterByte(i, j) == CounterByte(k, j)
      {
        DigitsOfRemainder(8, i, k, j);
      }
    }
  }

  lemma {:induction false} DigitsOfRemainder(n: nat, i: nat, k: nat, j: nat)
    requires j < n && i % Pow256(n) == k % Pow256(n)
    ensures CounterByte(i, j) == CounterByte(k, j)
  {
    SplitMod(i, Pow256(n - 1));
    SplitMod(k, Pow256(n - 1));
    if j > 0 {
      DigitsOfRemainder(n - 1, i / 256, k / 256, j - 1);
    }
  }

  /** The nonce of a frame determines the base. */
  lemma NonceDeterminesBase(base1: Nonce, base2: Nonce, i: nat)
    requires NonceAt(base1, i) == NonceAt(base2, i)
    ensures base1 == base2
  {
    forall k | 0 <= k < NONCE
      ensures base1[k] == base2[k]
    {
      assert NonceAt(base1, i)[k] == NonceAt(base2, i)[k];
      if k >= 4 {
        var c := CounterByte(i, 11 - k);
        Pow2Of8();
        XorBitsCommute(8, base1[k], c);
        XorBitsCommute(8, base2[k], c);
        XorBitsCancel(8, c, base1[k], base2[k]);
      }
    }
  }

  lemma XorBitsCommute(n: nat, a: nat, b: nat)
    ensures XorBits(n, a, b) == XorBits(n, b, a)
  {
  }

  /******* The length prefix *******/

  function BigEndian(n: nat): Bytes
    requires n < 0x1_0000_0000
  {
    [n / 0x100_0000, n / 0x1_0000 % 0x100, n / 0x100 % 0x100, n % 0x100]
  }

  function ReadBigEndian(l: Bytes): nat
    requires |l| == 4
  {
    l[0] as int * 0x100_0000 + l[1] as int * 0x1_0000 + l[2] as int * 0x100 + l[3] as int
  }

  /** The 4-byte length loses nothing. */
  lemma LengthIsLossless(n: nat)
    requires n < 0x1_0000_0000
    ensures ReadBigEndian(BigEndian(n)) == n
  {
    assert n == n / 0x100 * 0x100 + n % 0x100;
    assert n / 0x100 / 0x100 == n / 0x1_0000;
    assert n / 0x1_0000 / 0x100 == n / 0x100_0000;
  }

  /******* The cipher *******/

  // AES-256-GCM and SHA-256 stay abstract: a cipher is any pair of functions, a digest any function.
  datatype Aead = Aead(seal: (Bytes, Nonce, Bytes) -> Bytes, open: (Bytes, Nonce, Bytes) -> Option<Bytes>)

  ghost predicate Sizes(a: Aead) {
    forall key: Bytes, n: Nonce, p: Bytes :: |a.seal(key, n, p)| == |p| + OVERHEAD
  }

  ghost predicate Correct(a: Aead) {
    Sizes(a) && forall key: Bytes, n: Nonce, p: Bytes :: a.open(key, n, a.seal(key, n, p)) == Some(p)
  }

  // Opening a sealed piece under any other nonce fails.
  ghost predicate NonceBound(a: Aead) {
    forall key: Bytes, n: Nonce, m: Nonce, p: Bytes :: n != m ==> a.open(key, m, a.seal(key, n, p)) == None
  }

  /** The assumptions on the cipher can be met. */
  lemma IdealCipherExists() returns (a: Aead)
    ensures Correct(a) && NonceBound(a)
  {
    var tag: Bytes := [0, 0, 0, 0];
    a := Aead((key, n, p) => n + tag + p,
              (key, n, c) => if |c| >= OVERHEAD && c[..NONCE] == n then Some(c[OVERHEAD..]) else None);
    forall key: Bytes, n: Nonce, p: Bytes
      ensures |a.seal(key, n, p)| == |p| + OVERHEAD && a.open(key, n, a.seal(key, n, p)) == Some(p)
    {
      assert (n + tag + p)[OVERHEAD..] == p;
      assert (n + tag + p)[..NONCE] == n;
    }
    forall key: Bytes, n: Nonce, m: Nonce, p: Bytes | n != m
      ensures a.open(key, m, a.seal(key, n, p)) == None
    {
      assert (n + tag + p)[..NONCE] == n;
    }
  }

  /******* Encrypting *******/

  function Frame(sealed: Bytes): Bytes
    requires |sealed| < 0x1_0000_0000
  {
    BigEndian(|sealed|) + sealed
  }

  // What one Read call may deliver: nothing, or up to a chunk.
  ghost predicate Pieces(pieces: seq<Bytes>) {
    forall p :: p in pieces ==> |p| <= CHUNK
  }

  function Plain(pieces: seq<Bytes>): Bytes {
    if pieces == [] then [] else pieces[0] + Plain(pieces[1..])
  }

  function Count(pieces: seq<Bytes>): nat {
    if pieces == [] then 0 else (if pieces[0] == [] then 0 else 1) + Count(pieces[1..])
  }

  ghost function Frames(a: Aead, key: Bytes, base: Nonce, pieces: seq<Bytes>, i: nat): Bytes
    requires Sizes(a) && Pieces(pieces)
    decreases |pieces|
  {
    if pieces == [] then []
    else if pieces[0] == [] then Frames(a, key, base, pieces[1..], i)
    else Frame(a.seal(key, NonceAt(base, i), pieces[0])) + Frames(a, key, base, pieces[1..], i + 1)
  }

  /** The encrypted size: header, plaintext and 20 bytes for each frame. */
  lemma {:induction false} FramesSize(a: Aead, key: Bytes, base: Nonce, pieces: seq<Bytes>, i: nat)
    requires Sizes(a) && Pieces(pieces)
    ensures |Frames(a, key, base, pieces, i)| == |Plain(pieces)| + 20 * Count(pieces)
    decreases |pieces|
  {
    if pieces != [] {
      FramesSize(a, key, base, pieces[1..], if pieces[0] == [] then i else i + 1);
    }
  }

  lemma {:induction false} CountSplits(pieces: seq<Bytes>, k: nat)
    requires k <= |pieces|
    ensures Count(pieces) == Count(pieces[..k]) + Count(pieces[k..])
    decreases k
  {
    if k == 0 {
      assert pieces[0..] == pieces;
    } else {
      assert pieces[..k][1..] == pieces[1..][..k - 1] && pieces[1..][k - 1..] == pieces[k..];
      CountSplits(pieces[1..], k - 1);
    }
  }

  // The frame of one piece, none for an empty one.
  ghost function FrameOf(a: Aead, key: Bytes, base: Nonce, p: Bytes, i: nat): Bytes
    requires Sizes(a) && |p| <= CHUNK
  {
    if p == [] then [] else Frame(a.seal(key, NonceAt(base, i), p))
  }

  lemma FramesBehind(a: Aead, key: Bytes, base: Nonce, p: Bytes, rest: seq<Bytes>, i: nat)
    requires Sizes(a) && |p| <= CHUNK && Pieces(rest)
    ensures Pieces([p] + rest)
    ensures Frames(a, key, base, [p] + rest, i) ==
      FrameOf(a, key, base, p, i) + Frames(a, key, base, rest, if p == [] then i else i + 1)
  {
    assert ([p] + rest)[1..] == rest;
  }

  lemma Regrouped(x: Bytes, y: Bytes, z: Bytes)
    ensures x + (y + z) == x + y + z
  {
  }

  lemma {:induction false} FramesSplit(a: Aead, key: Bytes, base: Nonce, front: seq<Bytes>, back: seq<Bytes>, i: nat)
    requires Sizes(a) && Pieces(front) && Pieces(back)
    ensures Pieces(front + back)
    ensures Frames(a, key, base, front + back, i) ==
      Frames(a, key, base, front, i) + Frames(a, key, base, back, i + Count(front))
    decreases |front|
  {
    if front == [] {
      assert front + back == back;
    } else {
      var p, more := front[0], front[1..];
      var next := if p == [] then i else i + 1;
      assert front == [p] + more && front + back == [p] + (more + back);
      FramesSplit(a, key, base, more, back, next);
      FramesBehind(a, key, base, p, more, i);
      FramesBehind(a, key, base, p, more + back, i);
      Regrouped(FrameOf(a, key, base, p, i), Frames(a, key, base, more, next), Frames(a, key, base, back, next + Count(more)));
    }
  }

  lemma ProperPrefix(front: Bytes, back: Bytes, whole: Bytes)
    requires whole == front + back && back != []
    ensures front < whole
  {
  }

  lemma CountOne(p: Bytes)
    ensures Count([p]) == if p == [] then 0 else 1
  {
    assert [p][1..] == [];
  }

  lemma OneMoreCounted(got: seq<Bytes>, at: nat)
    requires at < |got|
    ensures Count(got[..at + 1]) == Count(got[..at]) + (if got[at] == [] then 0 else 1) <= Count(got)
    ensures got[..at + 1] == got[..at] + [got[at]]
  {
    var more := got[..at + 1];
    assert more[..at] == got[..at] && more[at..] == [got[at]];
    CountSplits(more, at);
    CountOne(got[at]);
    CountSplits(got, at + 1);
  }

  // What one more Read adds.
  lemma FramesGrow(a: Aead, key: Bytes, base: Nonce, got: seq<Bytes>, at: nat)
    requires Sizes(a) && Pieces(got) && at < |got|
    ensures Pieces(got[..at]) && Pieces(got[..at + 1])
    ensures |a.seal(key, NonceAt(base, Count(got[..at])), got[at])| < 0x1_0000_0000
    ensures Frames(a, key, base, got[..at + 1], 0) == Frames(a, key, base, got[..at], 0) +
      if got[at] == [] then [] else Frame(a.seal(key, NonceAt(base, Count(got[..at])), got[at]))
  {
    OneMoreCounted(got, at);
    FramesSplit(a, key, base, got[..at], [got[at]], 0);
    OnePiece(a, key, base, got[at], Count(got[..at]));
  }

  lemma OnePiece(a: Aead, key: Bytes, base: Nonce, p: Bytes, i: nat)
    requires Sizes(a) && |p| <= CHUNK && Pieces([p])
    ensures Count([p]) == if p == [] then 0 else 1
    ensures |a.seal(key, NonceAt(base, i), p)| < 0x1_0000_0000
    ensures Frames(a, key, base, [p], i) == if p == [] then [] else Frame(a.seal(key, NonceAt(base, i), p))
  {
    assert [p][1..] == [];
  }

  datatype Encrypted = Encrypted(file: Bytes, sum: string, size: nat)

  // The in-place XOR of the counter into a copy of the base.
  method XorCounter(base: Nonce, i: nat) returns (nonce: Nonce)
    ensures nonce == NonceAt(base, i)
  {
    var a := new byte[NONCE](k requires 0 <= k < NONCE => base[k]);
    var j := 0;
    while j < 8
      invariant 0 <= j <= 8
      invariant forall k :: 0 <= k < NONCE ==>
        a[k] == if k >= NONCE - j then Xor(base[k], CounterByte(i, 11 - k)) else base[k]
    {
      a[NONCE - 1 - j] := Xor(a[NONCE - 1 - j], CounterByte(i, j));
      j := j + 1;
    }
    nonce := a[..];
  }

  method SealFrame(a: Aead, key: Bytes, base: Nonce, i: nat, buf: Bytes) returns (frame: Bytes)
    requires |a.seal(key, NonceAt(base, i), buf)| < 0x1_0000_0000
    ensures frame == Frame(a.seal(key, NonceAt(base, i), buf))
  {
    var nonce := XorCounter(base, i);
    var sealed := a.seal(key, nonce, buf);
    var n := |sealed|;
    var lenb: Bytes := [n / 0x100_0000 % 0x100, n / 0x1_0000 % 0x100, n / 0x100 % 0x100, n % 0x100];
    frame := lenb + sealed;
  }

  // The frames of the first reads, and their number.
  ghost function SealedSoFar(a: Aead, key: Bytes, base: Nonce, got: seq<Bytes>, at: nat): Bytes
    requires Sizes(a) && Pieces(got) && at <= |got|
  {
    PrefixIsPieces(got, at);
    Frames(a, key, base, got[..at], 0)
  }

  lemma PrefixIsPieces(got: seq<Bytes>, at: nat)
    requires Pieces(got) && at <= |got|
    ensures Pieces(got[..at])
  {
  }

  lemma OneReadMore(a: Aead, key: Bytes, base: Nonce, got: seq<Bytes>, at: nat)
    requires Sizes(a) && Pieces(got) && at < |got|
    ensures
      var i := Count(got[..at]);
      && Count(got[..at + 1]) == i + (if got[at] == [] then 0 else 1) <= Count(got)
      && |a.seal(key, NonceAt(base, i), got[at])| < 0x1_0000_0000
      && SealedSoFar(a, key, base, got, at + 1) == SealedSoFar(a, key, base, got, at) +
        if got[at] == [] then [] else Frame(a.seal(key, NonceAt(base, i), got[at]))
  {
    FramesGrow(a, key, base, got, at);
    OneMoreCounted(got, at);
  }

  lemma AllIsSealed(a: Aead, key: Bytes, base: Nonce, got: seq<Bytes>)
    requires Sizes(a) && Pieces(got)
    ensures SealedSoFar(a, key, base, got, |got|) == Frames(a, key, base, got, 0) && Count(got[..|got|]) == Count(got)
    ensures SealedSoFar(a, key, base, got, 0) == [] && Count(got[..0]) == 0
  {
    assert got[..|got|] == got;
  }

  // The loop over what the successive Read calls deliver; `writes` says which frames can be written.
  method EncryptBody(a: Aead, key: Bytes, base: Nonce, got: seq<Bytes>, writes: nat -> bool) returns (ok: bool, hashed: Bytes)
    requires Sizes(a) && Pieces(got)
    ensures ok <==> forall k: nat :: k < Count(got) ==> writes(k)
    ensures ok ==> hashed == Frames(a, key, base, got, 0)
  {
    hashed := [];
    var i, at := 0, 0;
    AllIsSealed(a, key, base, got);
    while at < |got|
      invariant 0 <= at <= |got|
      invariant i == Count(got[..at]) <= Count(got)
      invariant hashed == SealedSoFar(a, key, base, got, at)
      invariant forall k: nat :: k < i ==> writes(k)
    {
      var buf := got[at];
      OneReadMore(a, key, base, got, at);
      if |buf| > 0 {
        var frame := SealFrame(a, key, base, i, buf);
        if !writes(i) {
          return false, hashed;
        }
        hashed, i := hashed + frame, i + 1;
      }
      at := at + 1;
    }
    ok := true;
  }

  // The step outside the loop that fails: opening, creating, drawing the base and writing the
  // header in front of it, reading, or looking up the size.
  datatype EncryptFault = EncryptNone | EncryptStart | EncryptRead | EncryptStat

  method EncryptFile(a: Aead, digest: Bytes -> string, key: Bytes, base: Nonce, got: seq<Bytes>,
                     fault: EncryptFault, writes: nat -> bool)
    returns (r: Result<Encrypted>)
    requires Sizes(a) && Pieces(got)
    ensures r.Ok? <==> |key| == 32 && fault == EncryptNone && forall k: nat :: k < Count(got) ==> writes(k)
    ensures r.Ok? ==>
      && r.value.file == MAGIC + base + Frames(a, key, base, got, 0)
      && r.value.sum == digest(Frames(a, key, base, got, 0))
      && r.value.size == |r.value.file| == HEADER + |Plain(got)| + 20 * Count(got)
  {
    if |key| != 32 || fault == EncryptStart {
      return Err;
    }
    var ok, hashed := EncryptBody(a, key, base, got, writes);
    if !ok || fault == EncryptRead || fault == EncryptStat {
      return Err;
    }
    var file := MAGIC + base + hashed;
    FramesSize(a, key, base, got, 0);
    return Ok(Encrypted(file, digest(hashed), |file|));
  }

  /******* Decrypting *******/

  // Opens every frame from index i on; no digest check yet.
  function OpenFrames(a: Aead, key: Bytes, base: Nonce, rest: Bytes, i: nat): Result<Bytes>
    decreases |rest|
  {
    if rest == [] then Ok([])
    else if |rest| < 4 then Err
    else
      var n := ReadBigEndian(rest[..4]);
      if n < OVERHEAD || n > CHUNK + OVERHEAD || |rest| < 4 + n then Err
      else match a.open(key, NonceAt(base, i), rest[4..4 + n])
        case None => Err
        case Some(p) => match OpenFrames(a, key, base, rest[4 + n..], i + 1)
          case Err => Err
          case Ok(q) => Ok(p + q)
  }

  // The frames in front of the first malformed one.
  function FrameCount(rest: Bytes): nat
    decreases |rest|
  {
    if |rest| < 4 then 0
    else
      var n := ReadBigEndian(rest[..4]);
      if n < OVERHEAD || n > CHUNK + OVERHEAD || |rest| < 4 + n then 0 else 1 + FrameCount(rest[4 + n..])
  }

  function Decrypted(a: Aead, digest: Bytes -> string, key: Bytes, file: Bytes, expected: string): Result<Bytes> {
    if |file| < HEADER || file[..5] != MAGIC then Err
    else
      var out := OpenFrames(a, key, file[5..HEADER], file[HEADER..], 0);
      if out.Ok? && digest(file[HEADER..]) == expected then out else Err
  }

  function Prepend(p: Bytes, r: Result<Bytes>): Result<Bytes> {
    if r.Ok? then Ok(p + r.value) else Err
  }

  lemma PrependTwice(p: Bytes, q: Bytes, r: Result<Bytes>)
    ensures Prepend(p, Prepend(q, r)) == Prepend(p + q, r) && Prepend([], r) == r && Prepend(p, Ok([])) == Ok(p)
  {
    if r.Ok? {
      assert p + (q + r.value) == p + q + r.value && [] + r.value == r.value;
    }
    assert p + [] == p;
  }

  // After i frames dst is open, and `todo` is what the rest gives.
  ghost predicate Remains(whole: Result<Bytes>, frames: nat, dst: Bytes, i: nat, todo: (Result<Bytes>, nat)) {
    whole == Prepend(dst, todo.0) && frames == i + todo.1
  }

  lemma OneMoreFrame(whole: Result<Bytes>, frames: nat, dst: Bytes, i: nat, here: (Result<Bytes>, nat), plain: Bytes, rest: (Result<Bytes>, nat))
    requires Remains(whole, frames, dst, i, here) && here.0 == Prepend(plain, rest.0) && here.1 == 1 + rest.1
    ensures Remains(whole, frames, dst + plain, i + 1, rest)
  {
    PrependTwice(dst, plain, rest.0);
  }

  lemma SliceGrows(body: Bytes, at: nat, n: nat)
    requires at + 4 + n <= |body|
    ensures body[at..][..4] == body[at..at + 4]
    ensures body[at..][4..4 + n] == body[at + 4..at + 4 + n]
    ensures body[at..][4 + n..] == body[at + 4 + n..]
  {
  }

  lemma Consumed(body: Bytes, at: nat, n: nat)
    requires at + n <= |body|
    ensures body[..at] + body[at..at + n] == body[..at + n] && body[..|body|] == body
  {
  }

  // The same by position: what the loop still has to open, and how many frames there are.
  function OpenFrom(a: Aead, key: Bytes, base: Nonce, body: Bytes, at: nat, i: nat): (Result<Bytes>, nat)
    requires at <= |body|
    decreases |body| - at
  {
    if |body| - at < 4 then (if at == |body| then Ok([]) else Err, 0)
    else
      var n := ReadBigEndian(body[at..at + 4]);
      if n < OVERHEAD || n > CHUNK + OVERHEAD || |body| - at < 4 + n then (Err, 0)
      else
        var (rest, left) := OpenFrom(a, key, base, body, at + 4 + n, i + 1);
        match a.open(key, NonceAt(base, i), body[at + 4..at + 4 + n])
        case None => (Err, 1 + left)
        case Some(p) => (Prepend(p, rest), 1 + left)
  }

  // Reading by position is reading the rest.
  ghost predicate ReadsTheRest(a: Aead, key: Bytes, base: Nonce, body: Bytes, at: nat, i: nat)
    requires at <= |body|
  {
    OpenFrom(a, key, base, body, at, i) == (OpenFrames(a, key, base, body[at..], i), FrameCount(body[at..]))
  }

  lemma FrameAt(a: Aead, key: Bytes, base: Nonce, body: Bytes, at: nat, i: nat, n: nat)
    requires at <= |body| && Framed(body[at..]) && n == ReadBigEndian(body[at..][..4]) && at + 4 + n <= |body|
    requires ReadsTheRest(a, key, base, body, at + 4 + n, i + 1)
    ensures ReadsTheRest(a, key, base, body, at, i)
  {
    FramedAt(body, at, n);
    OneOpened(a, key, base, body[at..], body[at + 4 + n..], n, body[at + 4..at + 4 + n], i);
  }

  lemma {:induction false} OpenFromIsOpenFrames(a: Aead, key: Bytes, base: Nonce, body: Bytes, at: nat, i: nat)
    requires at <= |body|
    ensures ReadsTheRest(a, key, base, body, at, i)
    decreases |body| - at
  {
    if Framed(body[at..]) {
      var n := ReadBigEndian(body[at..][..4]);
      OpenFromIsOpenFrames(a, key, base, body, at + 4 + n, i + 1);
      FrameAt(a, key, base, body, at, i, n);
    } else {
      MalformedAt(a, key, base, body, at, i);
    }
  }

  // A frame with a length the decoder accepts, all of it there.
  predicate Framed(rest: Bytes) {
    |rest| >= 4 && var n := ReadBigEndian(rest[..4]); OVERHEAD <= n <= CHUNK + OVERHEAD && |rest| >= 4 + n
  }

  lemma FramedAt(body: Bytes, at: nat, n: nat)
    requires at <= |body| && Framed(body[at..]) && n == ReadBigEndian(body[at..][..4])
    ensures |body| - at >= 4 + n && n == ReadBigEndian(body[at..at + 4])
    ensures body[at..][4..4 + n] == body[at + 4..at + 4 + n] && body[at..][4 + n..] == body[at + 4 + n..]
  {
    SliceGrows(body, at, n);
  }

  lemma MalformedAt(a: Aead, key: Bytes, base: Nonce, body: Bytes, at: nat, i: nat)
    requires at <= |body| && !Framed(body[at..])
    ensures ReadsTheRest(a, key, base, body, at, i)
  {
    assert |body| - at >= 4 ==> body[at..][..4] == body[at..at + 4];
  }

  // One frame in front of the rest.
  lemma OneOpened(a: Aead, key: Bytes, base: Nonce, all: Bytes, rest: Bytes, n: nat, v: Bytes, i: nat)
    requires |all| >= 4 && n == ReadBigEndian(all[..4]) && OVERHEAD <= n <= CHUNK + OVERHEAD && |all| >= 4 + n
    requires v == all[4..4 + n] && rest == all[4 + n..]
    ensures FrameCount(all) == 1 + FrameCount(rest)
    ensures OpenFrames(a, key, base, all, i) ==
      match a.open(key, NonceAt(base, i), v) case None => Err case Some(p) => Prepend(p, OpenFrames(a, key, base, rest, i + 1))
  {
  }

  // The loop of decryptFile over the part after the header; `writes` says which pieces of
  // plaintext can be written.
  method DecryptBody(a: Aead, key: Bytes, base: Nonce, body: Bytes, writes: nat -> bool) returns (r: Result<Bytes>, hashed: Bytes)
    ensures r.Ok? <==> OpenFrames(a, key, base, body, 0).Ok? && forall k: nat :: k < FrameCount(body) ==> writes(k)
    ensures r.Ok? ==> r == OpenFrames(a, key, base, body, 0) && hashed == body
  {
    OpenFromIsOpenFrames(a, key, base, body, 0, 0);
    assert body[0..] == body;
    r, hashed := OpenAll(a, key, base, body, writes);
  }

  // The frame at a position opens as `plain` and is n bytes long.
  ghost predicate Steps(a: Aead, key: Bytes, base: Nonce, body: Bytes, at: nat, i: nat, plain: Bytes, n: nat) {
    && 0 < n && at + n <= |body|
    && OpenFrom(a, key, base, body, at, i) ==
      (Prepend(plain, OpenFrom(a, key, base, body, at + n, i + 1).0), 1 + OpenFrom(a, key, base, body, at + n, i + 1).1)
  }

  // Reading and opening the frame at a position: its plaintext and its whole length.
  method OpenNext(a: Aead, key: Bytes, base: Nonce, body: Bytes, at: nat, i: nat) returns (r: Option<(Bytes, nat)>)
    requires at < |body|
    ensures r.None? ==> OpenFrom(a, key, base, body, at, i).0.Err?
    ensures r.Some? ==> Steps(a, key, base, body, at, i, r.value.0, r.value.1)
  {
    if |body| - at < 4 {
      return None;
    }
    var n := ReadBigEndian(body[at..at + 4]);
    if n < OVERHEAD || n > CHUNK + OVERHEAD {
      return None;
    }
    if |body| - at - 4 < n {
      return None;
    }
    var nonce := XorCounter(base, i);
    var plain := a.open(key, nonce, body[at + 4..at + 4 + n]);
    if plain.None? {
      return None;
    }
    return Some((plain.value, 4 + n));
  }

  // After i frames, up to position `at`: what is opened and hashed, and what is to come.
  ghost predicate OpenedUpTo(
    a: Aead, key: Bytes, base: Nonce, body: Bytes, writes: nat -> bool, whole: (Result<Bytes>, nat), at: nat, i: nat, dst: Bytes, hashed: Bytes)
  {
    && at <= |body| && hashed == body[..at] && (forall k: nat :: k < i ==> writes(k))
    && Remains(whole.0, whole.1, dst, i, OpenFrom(a, key, base, body, at, i))
  }

  lemma NothingOpened(a: Aead, key: Bytes, base: Nonce, body: Bytes, writes: nat -> bool)
    ensures OpenedUpTo(a, key, base, body, writes, OpenFrom(a, key, base, body, 0, 0), 0, 0, [], [])
  {
    PrependTwice([], [], OpenFrom(a, key, base, body, 0, 0).0);
  }

  lemma OneFrameOpened(
    a: Aead, key: Bytes, base: Nonce, body: Bytes, writes: nat -> bool, whole: (Result<Bytes>, nat), at: nat, i: nat, dst: Bytes, hashed: Bytes,
    plain: Bytes, n: nat)
    requires OpenedUpTo(a, key, base, body, writes, whole, at, i, dst, hashed) && writes(i)
    requires Steps(a, key, base, body, at, i, plain, n)
    ensures OpenedUpTo(a, key, base, body, writes, whole, at + n, i + 1, dst + plain, hashed + body[at..at + n])
  {
    Consumed(body, at, n);
    OneMoreFrame(whole.0, whole.1, dst, i, OpenFrom(a, key, base, body, at, i), plain, OpenFrom(a, key, base, body, at + n, i + 1));
  }

  lemma Stopped(
    a: Aead, key: Bytes, base: Nonce, body: Bytes, writes: nat -> bool, whole: (Result<Bytes>, nat), at: nat, i: nat, dst: Bytes, hashed: Bytes,
    next: Option<(Bytes, nat)>)
    requires OpenedUpTo(a, key, base, body, writes, whole, at, i, dst, hashed)
    requires if next.None? then OpenFrom(a, key, base, body, at, i).0.Err?
             else !writes(i) && Steps(a, key, base, body, at, i, next.value.0, next.value.1)
    ensures !(whole.0.Ok? && forall k: nat :: k < whole.1 ==> writes(k))
  {
  }

  lemma EverythingOpened(
    a: Aead, key: Bytes, base: Nonce, body: Bytes, writes: nat -> bool, whole: (Result<Bytes>, nat), i: nat, dst: Bytes, hashed: Bytes)
    requires OpenedUpTo(a, key, base, body, writes, whole, |body|, i, dst, hashed)
    ensures whole == (Ok(dst), i) && hashed == body
  {
    PrependTwice(dst, [], Ok([]));
    assert body[..|body|] == body;
  }

  method OpenAll(a: Aead, key: Bytes, base: Nonce, body: Bytes, writes: nat -> bool) returns (r: Result<Bytes>, hashed: Bytes)
    ensures
      var (whole, frames) := OpenFrom(a, key, base, body, 0, 0);
      && (r.Ok? <==> whole.Ok? && forall k: nat :: k < frames ==> writes(k))
      && (r.Ok? ==> r == whole && hashed == body)
  {
    var dst: Bytes := [];
    hashed := [];
    var at, i := 0, 0;
    ghost var whole := OpenFrom(a, key, base, body, 0, 0);
    NothingOpened(a, key, base, body, writes);
    while at < |body|
      invariant OpenedUpTo(a, key, base, body, writes, whole, at, i, dst, hashed)
      decreases |body| - at
    {
      var next := OpenNext(a, key, base, body, at, i);
      if next.None? || !writes(i) {
        Stopped(a, key, base, body, writes, whole, at, i, dst, hashed, next);
        return Err, hashed;
      }
      var (plain, n) := next.value;
      OneFrameOpened(a, key, base, body, writes, whole, at, i, dst, hashed, plain, n);
      hashed := hashed + body[at..at + n];
      dst := dst + plain;
      at, i := at + n, i + 1;
    }
    EverythingOpened(a, key, base, body, writes, whole, i, dst, hashed);
    return Ok(dst), hashed;
  }

  // `created` says whether the output file can be created.
  method DecryptFile(a: Aead, digest: Bytes -> string, key: Bytes, file: Bytes, expected: string, created: bool, writes: nat -> bool)
    returns (r: Result<Bytes>)
    ensures r.Ok? ==> r == Decrypted(a, digest, key, file, expected)
    ensures r.Ok? <==>
      && Decrypted(a, digest, key, file, expected).Ok?
      && created && forall k: nat :: k < FrameCount(file[HEADER..]) ==> writes(k)
  {
    if |file| < 5 || file[..5] != MAGIC {
      return Err;
    }
    if |file| < HEADER || !created {
      return Err;
    }
    var hashed;
    r, hashed := DecryptBody(a, key, file[5..HEADER], file[HEADER..], writes);
    if r.Ok? && digest(hashed) != expected {
      return Err;
    }
  }

  /******* Round trip and authenticity *******/

  lemma OneFrame(a: Aead, key: Bytes, base: Nonce, p: Bytes, rest: Bytes, i: nat)
    requires Sizes(a) && |p| <= CHUNK
    ensures
      var sealed := a.seal(key, NonceAt(base, i), p);
      var all := Frame(sealed) + rest;
      && |all| >= 4
      && ReadBigEndian(all[..4]) == |sealed|
      && OVERHEAD <= |sealed| <= CHUNK + OVERHEAD
      && all[4..4 + |sealed|] == sealed && all[4 + |sealed|..] == rest
  {
    var sealed := a.seal(key, NonceAt(base, i), p);
    LengthIsLossless(|sealed|);
    assert (Frame(sealed) + rest)[..4] == BigEndian(|sealed|);
  }

  /** However Read splits the plaintext, opening the frames gives it back. */
  lemma {:induction false} FramesOpen(a: Aead, key: Bytes, base: Nonce, pieces: seq<Bytes>, i: nat)
    requires Correct(a) && Pieces(pieces)
    ensures OpenFrames(a, key, base, Frames(a, key, base, pieces, i), i) == Ok(Plain(pieces))
    decreases |pieces|
  {
    if pieces != [] {
      var p, rest := pieces[0], pieces[1..];
      if p == [] {
        FramesOpen(a, key, base, rest, i);
        assert Plain(pieces) == Plain(rest);
      } else {
        FramesOpen(a, key, base, rest, i + 1);
        OneFrame(a, key, base, p, Frames(a, key, base, rest, i + 1), i);
      }
    }
  }

  /** Frames sealed under one base open under no other. */
  lemma {:induction false} OtherBaseFails(a: Aead, key: Bytes, base: Nonce, other: Nonce, pieces: seq<Bytes>, i: nat)
    requires Correct(a) && NonceBound(a) && Pieces(pieces)
    requires base != other && Count(pieces) > 0
    ensures OpenFrames(a, key, other, Frames(a, key, base, pieces, i), i) == Err
    decreases |pieces|
  {
    var p, rest := pieces[0], pieces[1..];
    if p == [] {
      OtherBaseFails(a, key, base, other, rest, i);
    } else {
      OneFrame(a, key, base, p, Frames(a, key, base, rest, i + 1), i);
      if NonceAt(base, i) == NonceAt(other, i) {
        NonceDeterminesBase(base, other, i);
      }
    }
  }

  lemma {:induction false} NothingSealed(a: Aead, key: Bytes, base: Nonce, pieces: seq<Bytes>, i: nat)
    requires Sizes(a) && Pieces(pieces) && Count(pieces) == 0
    ensures Frames(a, key, base, pieces, i) == [] && Plain(pieces) == []
    decreases |pieces|
  {
    if pieces != [] {
      NothingSealed(a, key, base, pieces[1..], i);
    }
  }

  /** Decrypting against the recorded digest accepts exactly the files with the magic, the
      sealed frames in order and the base they were sealed under (any base when nothing was
      sealed), and then returns the plaintext: frames dropped at a boundary, swapped or
      repeated and a changed base are all rejected. */
  lemma AcceptsExactlyTheOriginal(
    a: Aead, digest: Bytes -> string, key: Bytes, base: Nonce, pieces: seq<Bytes>, file: Bytes)
    requires Correct(a) && NonceBound(a) && Pieces(pieces)
    // no collision between what was recorded and what is presented
    requires |file| >= HEADER && digest(file[HEADER..]) == digest(Frames(a, key, base, pieces, 0)) ==>
      file[HEADER..] == Frames(a, key, base, pieces, 0)
    ensures
      var r := Decrypted(a, digest, key, file, digest(Frames(a, key, base, pieces, 0)));
      && (r.Ok? <==>
            && |file| >= HEADER && file[..5] == MAGIC
            && file[HEADER..] == Frames(a, key, base, pieces, 0)
            && (Count(pieces) > 0 ==> file[5..HEADER] == base))
      && (r.Ok? ==> r.value == Plain(pieces))
  {
    if |file| >= HEADER && file[HEADER..] == Frames(a, key, base, pieces, 0) {
      var other: Nonce := file[5..HEADER];
      if Count(pieces) == 0 {
        NothingSealed(a, key, base, pieces, 0);
      } else if other == base {
        FramesOpen(a, key, base, pieces, 0);
      } else {
        OtherBaseFails(a, key, base, other, pieces, 0);
      }
    }
  }

  /** The cipher alone does not notice a file cut at a frame boundary: the frames before the
      cut are a prefix of the sealed ones and still open. Only the digest rejects the cut. */
  lemma OnlyTheDigestSeesTruncation(
    a: Aead, digest: Bytes -> string, key: Bytes, base: Nonce, pieces: seq<Bytes>, k: nat)
    requires Correct(a) && NonceBound(a) && Pieces(pieces) && k <= |pieces| && Count(pieces[k..]) > 0
    requires Pieces(pieces[..k])
    requires
      var all, cut := Frames(a, key, base, pieces, 0), Frames(a, key, base, pieces[..k], 0);
      digest(cut) == digest(all) ==> cut == all
    ensures
      var all, cut := Frames(a, key, base, pieces, 0), Frames(a, key, base, pieces[..k], 0);
      && cut < all
      && OpenFrames(a, key, base, cut, 0) == Ok(Plain(pieces[..k]))
      && Decrypted(a, digest, key, MAGIC + base + cut, digest(all)) == Err
  {
    CutIsPrefix(a, key, base, pieces, k);
    FramesOpen(a, key, base, pieces[..k], 0);
    var cut := Frames(a, key, base, pieces[..k], 0);
    assert (MAGIC + base + cut)[HEADER..] == cut;
  }

  lemma CutIsPrefix(a: Aead, key: Bytes, base: Nonce, pieces: seq<Bytes>, k: nat)
    requires Sizes(a) && Pieces(pieces) && k <= |pieces| && Count(pieces[k..]) > 0 && Pieces(pieces[..k])
    ensures Frames(a, key, base, pieces[..k], 0) < Frames(a, key, base, pieces, 0)
  {
    assert pieces == pieces[..k] + pieces[k..];
    FramesSplit(a, key, base, pieces[..k], pieces[k..], 0);
    FramesSize(a, key, base, pieces[k..], Count(pieces[..k]));
    ProperPrefix(Frames(a, key, base, pieces[..k], 0), Frames(a, key, base, pieces[k..], Count(pieces[..k])), Frames(a, key, base, pieces, 0));
  }

  /******* Without the digest *******/

  // Exactly the frames of this stream open, each under its own nonce.
  ghost predicate OpensTheSealed(a: Aead, key: Bytes, base: Nonce, pieces: seq<Bytes>) {
    && (forall k: nat, n: Nonce, c: Bytes :: IsFrame(a, key, base, pieces, k, n, c) ==> a.open(key, n, c) == Some(pieces[k]))
    && (forall n: Nonce, c: Bytes :: a.open(key, n, c).Some? ==> exists k: nat :: IsFrame(a, key, base, pieces, k, n, c))
  }

  ghost predicate IsFrame(a: Aead, key: Bytes, base: Nonce, pieces: seq<Bytes>, k: nat, n: Nonce, c: Bytes) {
    k < |pieces| && n == NonceAt(base, k) && c == a.seal(key, n, pieces[k])
  }

  ghost predicate Full(pieces: seq<Bytes>) {
    Pieces(pieces) && forall p :: p in pieces ==> p != []
  }

  ghost predicate IsTagged(key: Bytes, base: Nonce, pieces: seq<Bytes>, k: nat, other: Bytes, n: Nonce, c: Bytes) {
    other == key && k < |pieces| && n == NonceAt(base, k) && c == n + [0, 0, 0, 0] + pieces[k]
  }

  /** These assumptions can be met too, for every stream. */
  lemma SealedOnlyCipherExists(key: Bytes, base: Nonce, pieces: seq<Bytes>) returns (a: Aead)
    ensures Sizes(a) && OpensTheSealed(a, key, base, pieces)
  {
    var tag: Bytes := [0, 0, 0, 0];
    a := Aead((other, n, p) => n + tag + p,
              (other, n, c) =>
                if |c| >= OVERHEAD && exists k: nat :: IsTagged(key, base, pieces, k, other, n, c) then Some(c[OVERHEAD..]) else None);
    forall k: nat, n: Nonce, c: Bytes | IsFrame(a, key, base, pieces, k, n, c)
      ensures a.open(key, n, c) == Some(pieces[k])
    {
      assert IsTagged(key, base, pieces, k, key, n, c);
      assert (n + tag + pieces[k])[OVERHEAD..] == pieces[k];
    }
    forall n: Nonce, c: Bytes | a.open(key, n, c).Some?
      ensures exists k: nat :: IsFrame(a, key, base, pieces, k, n, c)
    {
      var k: nat :| IsTagged(key, base, pieces, k, key, n, c);
      assert IsFrame(a, key, base, pieces, k, n, c);
    }
  }

  lemma OpenedFrameIsNext(a: Aead, key: Bytes, base: Nonce, pieces: seq<Bytes>, i: nat, c: Bytes)
    requires OpensTheSealed(a, key, base, pieces)
    requires i <= |pieces| < Pow256(8) && a.open(key, NonceAt(base, i), c).Some?
    ensures i < |pieces| && c == a.seal(key, NonceAt(base, i), pieces[i]) && a.open(key, NonceAt(base, i), c) == Some(pieces[i])
  {
    var k: nat :| IsFrame(a, key, base, pieces, k, NonceAt(base, i), c);
    NoncesRepeatOnlyModulo(base, i, k);
    SmallIsItself(i);
    SmallIsItself(k);
  }

  lemma SmallIsItself(i: nat)
    requires i < Pow256(8)
    ensures i % Pow256(8) == i
  {
  }

  // The frames of pieces i to k of the stream.
  ghost predicate IsPart(a: Aead, key: Bytes, base: Nonce, pieces: seq<Bytes>, i: nat, k: nat, body: Bytes)
    requires Sizes(a) && Full(pieces)
  {
    i <= k <= |pieces| && Pieces(pieces[i..k]) && body == Frames(a, key, base, pieces[i..k], i)
  }

  /** What opens from frame i on is the frames of the pieces up to some k, and gives those pieces. */
  lemma {:induction false} OpenedIsAPrefix(a: Aead, key: Bytes, base: Nonce, pieces: seq<Bytes>, body: Bytes, i: nat) returns (k: nat)
    requires Sizes(a) && Full(pieces) && OpensTheSealed(a, key, base, pieces)
    requires i <= |pieces| < Pow256(8) && OpenFrames(a, key, base, body, i).Ok?
    ensures IsPart(a, key, base, pieces, i, k, body)
    ensures OpenFrames(a, key, base, body, i) == Ok(Plain(pieces[i..k]))
    decreases |body|
  {
    if body == [] {
      k := i;
    } else {
      var n := ReadBigEndian(body[..4]);
      var c := body[4..4 + n];
      OpenedFrameIsNext(a, key, base, pieces, i, c);
      k := OpenedIsAPrefix(a, key, base, pieces, body[4 + n..], i + 1);
      FrameFromBytes(body, n, c);
      assert pieces[i] in pieces;
      PrefixGrows(a, key, base, pieces, i, k, body[4 + n..]);
    }
  }

  lemma {:induction false} PrefixOpens(a: Aead, key: Bytes, base: Nonce, pieces: seq<Bytes>, i: nat, k: nat)
    requires Sizes(a) && Full(pieces) && OpensTheSealed(a, key, base, pieces) && i <= k <= |pieces|
    ensures Pieces(pieces[i..k])
    ensures OpenFrames(a, key, base, Frames(a, key, base, pieces[i..k], i), i) == Ok(Plain(pieces[i..k]))
    decreases k - i
  {
    if i < k {
      PrefixOpens(a, key, base, pieces, i + 1, k);
      assert pieces[i] in pieces && IsFrame(a, key, base, pieces, i, NonceAt(base, i), a.seal(key, NonceAt(base, i), pieces[i]));
      var rest := Frames(a, key, base, pieces[i + 1..k], i + 1);
      PrefixGrows(a, key, base, pieces, i, k, rest);
      OneFrame(a, key, base, pieces[i], rest, i);
    }
  }

  /** With a cipher that opens exactly what was sealed, and before any digest is compared: the
      frames presented under the file's base all open if and only if they are those of a prefix of
      the sealed pieces, and then the plaintext is that prefix. */
  lemma OpensExactlyThePrefixes(a: Aead, key: Bytes, base: Nonce, pieces: seq<Bytes>, body: Bytes)
    requires Sizes(a) && Full(pieces) && OpensTheSealed(a, key, base, pieces) && |pieces| < Pow256(8)
    ensures OpenFrames(a, key, base, body, 0).Ok? <==> exists k: nat :: IsPart(a, key, base, pieces, 0, k, body)
    ensures forall k: nat :: IsPart(a, key, base, pieces, 0, k, body) ==>
      OpenFrames(a, key, base, body, 0) == Ok(Plain(pieces[..k]))
  {
    if OpenFrames(a, key, base, body, 0).Ok? {
      var k := OpenedIsAPrefix(a, key, base, pieces, body, 0);
    }
    forall k: nat | IsPart(a, key, base, pieces, 0, k, body)
      ensures OpenFrames(a, key, base, body, 0) == Ok(Plain(pieces[..k]))
    {
      PrefixOpens(a, key, base, pieces, 0, k);
      assert pieces[0..k] == pieces[..k];
    }
  }

  lemma PrefixGrows(a: Aead, key: Bytes, base: Nonce, pieces: seq<Bytes>, i: nat, k: nat, rest: Bytes)
    requires Sizes(a) && i < k <= |pieces| && Pieces(pieces[i + 1..k]) && |pieces[i]| <= CHUNK && pieces[i] != []
    requires rest == Frames(a, key, base, pieces[i + 1..k], i + 1)
    ensures Pieces(pieces[i..k])
    ensures Frame(a.seal(key, NonceAt(base, i), pieces[i])) + rest == Frames(a, key, base, pieces[i..k], i)
    ensures Plain(pieces[i..k]) == pieces[i] + Plain(pieces[i + 1..k])
  {
    assert pieces[i..k] == [pieces[i]] + pieces[i + 1..k] && pieces[i..k][1..] == pieces[i + 1..k];
    FramesBehind(a, key, base, pieces[i], pieces[i + 1..k], i);
  }

  lemma FrameFromBytes(body: Bytes, n: nat, c: Bytes)
    requires |body| >= 4 && n == ReadBigEndian(body[..4]) && |body| >= 4 + n && c == body[4..4 + n] && n < 0x1_0000_0000
    ensures body == Frame(c) + body[4 + n..]
  {
    BigEndianReads(body[..4]);
    assert body == body[..4] + c + body[4 + n..];
  }

  lemma BigEndianReads(l: Bytes)
    requires |l| == 4
    ensures ReadBigEndian(l) < 0x1_0000_0000 && BigEndian(ReadBigEndian(l)) == l
  {
    var n := ReadBigEndian(l);
    var p, q, r, s: int := l[0], l[1], l[2], l[3];
    assert n == p * 0x100_0000 + (q * 0x1_0000 + r * 0x100 + s);
    assert n / 0x100_0000 == p;
    assert n / 0x1_0000 == p * 0x100 + q && n / 0x100 == (p * 0x100 + q) * 0x100 + r;
  }
}
