/** 32-bit words, and memory as a sequence indexed by byte address in which cell p (p a multiple
    of 4) is the word stored at p. */
module Words {
  import opened HeapShape

  type Word = w: int | 0 <= w < SIZE_T_MOD

  function At(m: seq<Word>, p: int): Word { if 0 <= p < |m| then m[p] else 0 }

  // ---------- Tag words ----------

  /** GET_SIZE: the word without its three low bits. */
  function SizeOf(w: Word): int { w - w % 8 }

  /** GET_ALLOC: the lowest bit. */
  predicate IsAlloc(w: Word) { w % 2 == 1 }

  /** PACK: or-ing the allocated bit into a size that is a multiple of 8. */
  function Pack(size: int, alloc: int): int { size + alloc }

  lemma TagBits(size: int)
    requires size % 8 == 0
    ensures size % 2 == 0 && (size + 1) % 2 == 1 && (size + 1) % 8 == 1
  {
    var k := size / 8;
    EvenAndOdd(4 * k);
    EighthAndOne(k);
  }

  lemma EvenAndOdd(k: int)
    ensures (2 * k) % 2 == 0 && (2 * k + 1) % 2 == 1
  {
  }

  lemma EighthAndOne(k: int)
    ensures (8 * k + 1) % 8 == 1
  {
  }

  lemma SizeOfZero()
    ensures SizeOf(0) == 0 && Aligned(0) && Aligned(DSIZE)
  {
  }

  // ---------- Bytes ----------

  function Shift(k: int): (s: int)
    ensures s > 0
  {
    if k <= 0 then 1 else if k == 1 then 0x100 else if k == 2 then 0x1_0000 else 0x100_0000
  }

  /** Byte k of a word, the low-order byte first. */
  function ByteOf(w: Word, k: int): int { w / Shift(k) % 0x100 }

  /** The byte at address a. */
  function ByteAt(m: seq<Word>, a: int): int { ByteOf(At(m, a - a % WSIZE), a % WSIZE) }

  /** The word old with its r low-order bytes replaced by those of new. */
  function LowBytes(old_word: Word, new_word: Word, r: int): (w: Word)
    requires 0 < r < WSIZE
  {
    old_word - old_word % Shift(r) + new_word % Shift(r)
  }

  /** A word made of the bytes a, b, c, d, the low-order byte first. */
  function Compose(a: int, b: int, c: int, d: int): int { a + 0x100 * (b + 0x100 * (c + 0x100 * d)) }

  predicate IsByte(b: int) { 0 <= b < 0x100 }

  lemma ComposedBytes(a: int, b: int, c: int, d: int)
    requires IsByte(a) && IsByte(b) && IsByte(c) && IsByte(d)
    ensures var w := Compose(a, b, c, d);
      && 0 <= w < SIZE_T_MOD
      && ByteOf(w, 0) == a && ByteOf(w, 1) == b && ByteOf(w, 2) == c && ByteOf(w, 3) == d
      && w % Shift(1) == a && w % Shift(2) == a + 0x100 * b && w % Shift(3) == a + 0x100 * (b + 0x100 * c)
  {
    var w := Compose(a, b, c, d);
    assert w / 0x100 == b + 0x100 * (c + 0x100 * d);
    assert w / 0x1_0000 == c + 0x100 * d;
    assert w / 0x100_0000 == d;
  }

  lemma Decompose(w: Word) returns (a: int, b: int, c: int, d: int)
    ensures IsByte(a) && IsByte(b) && IsByte(c) && IsByte(d) && w == Compose(a, b, c, d)
  {
    a, b, c, d := w % 0x100, w / 0x100 % 0x100, w / 0x1_0000 % 0x100, w / 0x100_0000;
    assert w / 0x100 / 0x100 == w / 0x1_0000 && w / 0x1_0000 / 0x100 == w / 0x100_0000;
  }

  /** Replacing r low-order bytes, byte by byte. */
  lemma LowBytesIs(o: Word, n: Word, r: int, a: int, b: int, c: int, d: int, a': int, b': int, c': int, d': int)
    requires 0 < r < WSIZE && IsByte(a) && IsByte(b) && IsByte(c) && IsByte(d)
    requires IsByte(a') && IsByte(b') && IsByte(c') && IsByte(d')
    requires o == Compose(a, b, c, d) && n == Compose(a', b', c', d')
    ensures LowBytes(o, n, r) == Compose(a', if r > 1 then b' else b, if r > 2 then c' else c, d)
  {
    hide ByteOf, Shift;
    ComposedBytes(a, b, c, d);
    ComposedBytes(a', b', c', d');
  }

  lemma LowBytesOf(old_word: Word, new_word: Word, r: int, k: int)
    requires 0 < r < WSIZE && 0 <= k < WSIZE
    ensures ByteOf(LowBytes(old_word, new_word, r), k) == ByteOf(if k < r then new_word else old_word, k)
  {
    hide ByteOf, Shift, Compose, LowBytes, IsByte;
    var a, b, c, d := Decompose(old_word);
    var a', b', c', d' := Decompose(new_word);
    LowBytesIs(old_word, new_word, r, a, b, c, d, a', b', c', d');
    ComposedBytes(a, b, c, d);
    ComposedBytes(a', b', c', d');
    ComposedBytes(a', if r > 1 then b' else b, if r > 2 then c' else c, d);
  }

  lemma ByteInWord(m: seq<Word>, base: int, k: int)
    requires Aligned(base)
    ensures WordAligned(k - k % WSIZE) && k % WSIZE <= WSIZE - 1 && (0 <= k ==> 0 <= k - k % WSIZE <= k)
    ensures ByteAt(m, base + k) == ByteOf(At(m, base + (k - k % WSIZE)), k % WSIZE)
  {
    hide At, ByteOf;
    SameByte(2 * (base / 8), k);
  }

  lemma SameByte(j: int, k: int)
    ensures (WSIZE * j + k) % WSIZE == k % WSIZE
  {
  }

  lemma WholeWords(a: int, q: int, r: int)
    requires q == a / WSIZE && r == a % WSIZE
    ensures a == 4 * q + r && 0 <= r < 4
  {
  }

  lemma NotBelow(k: int, q: int, r: int)
    requires 8 * k <= 4 * q + r && 0 <= r < 4
    ensures 8 * k <= 4 * q
  {
  }

  /** The word that holds a byte past an aligned address does not reach below it. */
  lemma ByteInside(base: int, a: int)
    requires Aligned(base) && base <= a
    ensures base <= a - a % WSIZE && WordAligned(a - a % WSIZE) && a < a - a % WSIZE + WSIZE
  {
    hide Aligned, WordAligned;
    var k := Eighth(base);
    var q := a / WSIZE;
    var r := a % WSIZE;
    WholeWords(a, q, r);
    NotBelow(k, q, r);
    Fours(q);
  }

  // ---------- Copying ----------

  /** The first i bytes, a whole number of words, are copied. */
  ghost predicate WordsCopied(m0: seq<Word>, m: seq<Word>, dst: int, src: int, i: int) {
    forall p {:trigger At(m, p)} :: dst <= p < dst + i && WordAligned(p - dst) ==> At(m, p) == At(m0, src + (p - dst))
  }

  ghost predicate BytesCopied(m0: seq<Word>, m: seq<Word>, dst: int, src: int, n: int) {
    forall a {:trigger ByteAt(m, a)} :: dst <= a < dst + n ==> ByteAt(m, a) == ByteAt(m0, src + (a - dst))
  }

  lemma NextCopied(m0: seq<Word>, m1: seq<Word>, m2: seq<Word>, dst: int, src: int, i: int)
    requires WordsCopied(m0, m1, dst, src, i) && WordAligned(i)
    requires forall p {:trigger At(m2, p)} :: p != dst + i ==> At(m2, p) == At(m1, p)
    requires At(m2, dst + i) == At(m0, src + i)
    ensures WordsCopied(m0, m2, dst, src, i + WSIZE)
  {
    hide At;
  }

  lemma SameWord(i: int, k: int)
    requires WordAligned(i) && i <= k < i + WSIZE
    ensures k - k % WSIZE == i && k % WSIZE == k - i
  {
    var q := i / WSIZE;
    assert k == WSIZE * q + (k - i);
  }

  /** Whole words, and then the low-order bytes of one more, make up the bytes. */
  lemma CopiedBytes(m0: seq<Word>, m: seq<Word>, dst: int, src: int, i: int, n: int)
    requires Aligned(dst) && Aligned(src) && 0 <= i && WordAligned(i) && i <= n < i + WSIZE
    requires WordsCopied(m0, m, dst, src, i)
    requires forall k {:trigger ByteOf(At(m, dst + i), k)} :: 0 <= k < n - i ==>
      ByteOf(At(m, dst + i), k) == ByteOf(At(m0, src + i), k)
    ensures BytesCopied(m0, m, dst, src, n)
  {
    hide Aligned, WordAligned, ByteAt, ByteOf, At;
    forall a {:trigger ByteAt(m, a)} | dst <= a < dst + n ensures ByteAt(m, a) == ByteAt(m0, src + (a - dst)) {
      var k := a - dst;
      ByteInWord(m, dst, k);
      ByteInWord(m0, src, k);
      if k < i {
        var p := dst + (k - k % WSIZE);
        assert p - dst == k - k % WSIZE;
        assert At(m, p) == At(m0, src + (p - dst));
      } else {
        SameWord(i, k);
        assert ByteOf(At(m, dst + i), k - i) == ByteOf(At(m0, src + i), k - i);
        assert At(m, dst + (k - k % WSIZE)) == At(m, dst + i);
      }
      assert a == dst + k;
    }
  }

  lemma BytesCopiedTrans(m0: seq<Word>, m1: seq<Word>, m2: seq<Word>, b: int, c: int, d: int, n: int, k: int)
    requires BytesCopied(m0, m1, c, b, n) && BytesCopied(m1, m2, d, c, k) && k <= n
    ensures BytesCopied(m0, m2, d, b, k)
  {
    hide ByteAt;
    forall a {:trigger ByteAt(m2, a)} | d <= a < d + k ensures ByteAt(m2, a) == ByteAt(m0, b + (a - d)) {
      assert ByteAt(m1, c + (a - d)) == ByteAt(m0, b + (a - d));
    }
  }

  lemma BytesCopiedPrefix(m0: seq<Word>, m1: seq<Word>, dst: int, src: int, n: int, k: int)
    requires BytesCopied(m0, m1, dst, src, n) && k <= n
    ensures BytesCopied(m0, m1, dst, src, k)
  {
  }

  // ---------- Filling ----------

  ghost predicate WordsFilled(m: seq<Word>, dst: int, i: int, w: Word) {
    forall p {:trigger At(m, p)} :: dst <= p < dst + i && WordAligned(p - dst) ==> At(m, p) == w
  }

  ghost predicate BytesFilled(m: seq<Word>, dst: int, n: int, b: int) {
    forall a {:trigger ByteAt(m, a)} :: dst <= a < dst + n ==> ByteAt(m, a) == b
  }

  /** The word whose four bytes are all b. */
  function Repeated(b: int): (w: Word)
    requires IsByte(b)
    ensures forall k {:trigger ByteOf(w, k)} :: 0 <= k < WSIZE ==> ByteOf(w, k) == b
  {
    ComposedBytes(b, b, b, b);
    Compose(b, b, b, b)
  }

  lemma NextFilled(m1: seq<Word>, m2: seq<Word>, dst: int, i: int, w: Word)
    requires WordsFilled(m1, dst, i, w) && WordAligned(i) && At(m2, dst + i) == w
    requires forall p {:trigger At(m2, p)} :: p != dst + i ==> At(m2, p) == At(m1, p)
    ensures WordsFilled(m2, dst, i + WSIZE, w)
  {
    hide At;
  }

  lemma FilledBytes(m: seq<Word>, dst: int, i: int, n: int, w: Word, b: int)
    requires Aligned(dst) && 0 <= i && WordAligned(i) && i <= n < i + WSIZE && WordsFilled(m, dst, i, w)
    requires forall k {:trigger ByteOf(w, k)} :: 0 <= k < WSIZE ==> ByteOf(w, k) == b
    requires forall k {:trigger ByteOf(At(m, dst + i), k)} :: 0 <= k < n - i ==> ByteOf(At(m, dst + i), k) == b
    ensures BytesFilled(m, dst, n, b)
  {
    hide Aligned, WordAligned, ByteAt, ByteOf, At;
    forall a {:trigger ByteAt(m, a)} | dst <= a < dst + n ensures ByteAt(m, a) == b {
      var k := a - dst;
      ByteInWord(m, dst, k);
      if k < i {
        var p := dst + (k - k % WSIZE);
        assert p - dst == k - k % WSIZE;
        assert At(m, p) == w;
      } else {
        SameWord(i, k);
        assert ByteOf(At(m, dst + i), k - i) == b;
        assert At(m, dst + (k - k % WSIZE)) == At(m, dst + i);
      }
      assert a == dst + k;
    }
  }
}
