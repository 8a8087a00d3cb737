/**
 The initial file system: the packer (`initrd/quasfs.c`) and the reader (`src/initrd/quasfs.c`).

 An image is a 16-byte head, one 80-byte header per file, and the contents. Bytes of the structures that the
 packer does not write are whatever memory held; `junk` says for each position in the image what that was.
 */
module Initrd {
  import opened Words

  const HEAD_SIZE: nat := 16
  const HEADER_SIZE: nat := 80
  const NAME_SIZE: nat := 50
  const MAGIC: u64 := 0xbadcafee

  datatype File = File(name: seq<u8>, content: seq<u8>)

  datatype Header = Header(magic: u64, name: seq<u8>, address: u64, size: u64)

  /** A C string that fits a header: no NUL inside, and room for the terminator. */
  ghost predicate IsName(name: seq<u8>) {
    |name| < NAME_SIZE && forall i :: 0 <= i < |name| ==> name[i] != 0
  }

  // ---- Little-endian words

  function Bytes(v: nat, n: nat): (s: seq<u8>)
    ensures |s| == n
  {
    if n == 0 then [] else [v % 0x100] + Bytes(v / 0x100, n - 1)
  }

  function Value(s: seq<u8>): nat {
    if s == [] then 0 else s[0] + 0x100 * Value(s[1..])
  }

  function Limit(n: nat): nat {
    if n == 0 then 1 else 0x100 * Limit(n - 1)
  }

  lemma {:induction false} ValueOfBytes(v: nat, n: nat)
    requires v < Limit(n)
    ensures Value(Bytes(v, n)) == v
    decreases n
  {
    if n > 0 {
      ValueOfBytes(v / 0x100, n - 1);
      assert Bytes(v, n)[1..] == Bytes(v / 0x100, n - 1);
    }
  }

  lemma Limit8()
    ensures Limit(8) == SIZE_MODULUS
  {
    assert Limit(2) == 0x1_0000;
    assert Limit(4) == 0x1_0000_0000;
    assert Limit(6) == 0x1_0000_0000_0000;
  }

  lemma WordRound(v: u64)
    ensures Value(Bytes(v, 8)) == v
  {
    Limit8();
    ValueOfBytes(v, 8);
  }

  /** The word at an offset; zero if it sticks out of the image. */
  function Word(image: seq<u8>, offset: nat): nat {
    if offset + 8 <= |image| then Value(image[offset..offset + 8]) else 0
  }

  // ---- The image

  /** The unwritten bytes at the positions from `from` on. */
  function Junk(junk: nat -> u8, from: nat, n: int): (s: seq<u8>)
    ensures |s| == if n < 0 then 0 else n
    decreases n
  {
    if n <= 0 then [] else Junk(junk, from, n - 1) + [junk(from + n - 1)]
  }

  const SIGNATURE: seq<u8> := ['Q' as int, 'U' as int, 'A' as int, 'S' as int]

  function HeadBytes(count: nat, junk: nat -> u8): (s: seq<u8>)
    ensures |s| == HEAD_SIZE
  {
    SIGNATURE + [0] + Junk(junk, 5, 3) + Bytes(count, 8)
  }

  /** The offset of header `i`. */
  function HeaderAt(i: nat): nat {
    HEAD_SIZE + HEADER_SIZE * i
  }

  /** A header at an offset of the image. */
  function HeaderBytes(h: Header, at: nat, junk: nat -> u8): (s: seq<u8>)
    requires |h.name| < NAME_SIZE
    ensures |s| == HEADER_SIZE
  {
    Bytes(h.magic, 8) + (h.name + [0] + Junk(junk, at + 9 + |h.name|, NAME_SIZE - 1 - |h.name|)) + Junk(junk, at + 58, 6)
    + Bytes(h.address, 8) + Bytes(h.size, 8)
  }

  function Total(files: seq<File>): nat {
    if files == [] then 0 else Total(files[..|files| - 1]) + |files[|files| - 1].content|
  }

  /** The start of the contents of file `i`. */
  function Address(files: seq<File>, i: nat): nat
    requires i <= |files|
  {
    HEAD_SIZE + HEADER_SIZE * |files| + Total(files[..i])
  }

  /** What the packer demands: names that fit, and an image below 2^64 bytes. */
  ghost predicate Packable(files: seq<File>) {
    (forall i :: 0 <= i < |files| ==> IsName(files[i].name)) && Address(files, |files|) < 0x1_0000_0000_0000_0000
  }

  lemma {:induction false} TotalMonotonic(files: seq<File>, i: nat)
    requires i <= |files|
    ensures Total(files[..i]) <= Total(files)
    decreases |files|
  {
    if i < |files| {
      TotalMonotonic(files[..|files| - 1], i);
      assert files[..|files| - 1][..i] == files[..i];
    } else {
      assert files[..i] == files;
    }
  }

  function HeaderOf(files: seq<File>, i: nat): (h: Header)
    requires Packable(files) && i < |files|
    ensures |h.name| < NAME_SIZE
  {
    TotalMonotonic(files, i);
    TotalMonotonic(files, i + 1);
    assert files[..i + 1][..i] == files[..i];
    assert files[..|files|] == files;
    Header(MAGIC, files[i].name, Address(files, i), |files[i].content|)
  }

  function Headers(files: seq<File>, n: nat, junk: nat -> u8): (s: seq<u8>)
    requires Packable(files) && n <= |files|
    ensures |s| == HEADER_SIZE * n
  {
    if n == 0 then [] else Headers(files, n - 1, junk) + HeaderBytes(HeaderOf(files, n - 1), HeaderAt(n - 1), junk)
  }

  function Contents(files: seq<File>): (s: seq<u8>)
    ensures |s| == Total(files)
  {
    if files == [] then [] else Contents(files[..|files| - 1]) + files[|files| - 1].content
  }

  /** The packed image. */
  function Image(files: seq<File>, junk: nat -> u8): (s: seq<u8>)
    requires Packable(files)
    ensures |s| == Address(files, |files|)
  {
    assert files[..|files|] == files;
    HeadBytes(|files|, junk) + Headers(files, |files|, junk) + Contents(files)
  }

  // ---- Reading it back

  lemma {:induction false} HeaderSlice(files: seq<File>, n: nat, i: nat, junk: nat -> u8)
    requires Packable(files) && i < n <= |files|
    ensures Headers(files, n, junk)[HEADER_SIZE * i..HEADER_SIZE * i + HEADER_SIZE] == HeaderBytes(HeaderOf(files, i), HeaderAt(i), junk)
    decreases n
  {
    hide *;
    NameSize();
    HeadersNext(files, n - 1, junk);
    var init, last := Headers(files, n - 1, junk), HeaderBytes(HeaderOf(files, n - 1), HeaderAt(n - 1), junk);
    if i < n - 1 {
      HeaderSlice(files, n - 1, i, junk);
      SliceLeft(init, last, HEADER_SIZE * i, HEADER_SIZE * i + HEADER_SIZE);
    } else {
      SliceRight(init, last);
    }
  }

  lemma SliceLeft(a: seq<u8>, b: seq<u8>, i: nat, j: nat)
    requires i <= j <= |a|
    ensures (a + b)[i..j] == a[i..j]
  {
  }

  lemma SliceRight(a: seq<u8>, b: seq<u8>)
    ensures (a + b)[|a|..|a| + |b|] == b
  {
  }

  lemma {:induction false} ContentSlice(files: seq<File>, i: nat)
    requires i < |files|
    ensures Total(files[..i]) + |files[i].content| <= Total(files)
    ensures Contents(files)[Total(files[..i])..Total(files[..i]) + |files[i].content|] == files[i].content
    decreases |files|
  {
    var init := files[..|files| - 1];
    if i < |files| - 1 {
      ContentSlice(init, i);
      assert init[..i] == files[..i] && init[i] == files[i];
    }
  }

  /** File extents follow each other without gaps, from the end of the headers to the end of the image. */
  lemma Extents(files: seq<File>, i: nat)
    requires i < |files|
    ensures Address(files, 0) == HEAD_SIZE + HEADER_SIZE * |files|
    ensures Address(files, i) + |files[i].content| == Address(files, i + 1)
  {
    assert files[..i + 1][..i] == files[..i];
  }

  /** The file is in the image at its address. */
  lemma ContentInImage(files: seq<File>, i: nat, junk: nat -> u8)
    requires Packable(files) && i < |files|
    ensures Address(files, i) + |files[i].content| <= |Image(files, junk)|
    ensures Image(files, junk)[Address(files, i)..Address(files, i) + |files[i].content|] == files[i].content
  {
    hide *;
    ContentSlice(files, i);
    ImageParts(files, i, junk);
    var head, data, start := HeadBytes(|files|, junk) + Headers(files, |files|, junk), Contents(files), Total(files[..i]);
    Embedded(head, data, [], start, start + |files[i].content|);
    assert head + data + [] == head + data;
  }

  lemma ImageParts(files: seq<File>, i: nat, junk: nat -> u8)
    requires Packable(files) && i <= |files|
    ensures var head := HeadBytes(|files|, junk) + Headers(files, |files|, junk);
      Image(files, junk) == head + Contents(files) && Address(files, i) == |head| + Total(files[..i])
  {
    hide HeadBytes, Headers, Contents, Total;
  }

  /** `!strcmp`, from the `k`th character on: the string in the image against a C string. */
  predicate StrEq(image: seq<u8>, p: nat, name: seq<u8>, k: nat)
    requires k <= |name|
    decreases |name| - k
  {
    if p + k >= |image| then false
    else
      var d := if k < |name| then name[k] else 0;
      image[p + k] == d && (d == 0 || StrEq(image, p, name, k + 1))
  }

  ghost predicate NoNul(name: seq<u8>) {
    forall i :: 0 <= i < |name| ==> name[i] != 0
  }

  /** The comparison succeeds exactly when the bytes of the string and its terminator are there. */
  lemma {:induction false} StrEqExact(image: seq<u8>, p: nat, name: seq<u8>, k: nat)
    requires NoNul(name) && k <= |name|
    ensures StrEq(image, p, name, k) <==> p + |name| < |image| && image[p + k..p + |name|] == name[k..] && image[p + |name|] == 0
    decreases |name| - k
  {
    if k < |name| && p + k < |image| {
      StrEqExact(image, p, name, k + 1);
      if p + |name| < |image| {
        assert image[p + k..p + |name|] == [image[p + k]] + image[p + k + 1..p + |name|];
        assert name[k..] == [name[k]] + name[k + 1..];
      }
    }
  }

  /** A terminated string in the image equals another one exactly when their characters do. */
  lemma StrEqStored(image: seq<u8>, p: nat, stored: seq<u8>, name: seq<u8>)
    requires p + |stored| < |image| && image[p..p + |stored|] == stored && image[p + |stored|] == 0
    requires NoNul(stored) && NoNul(name)
    ensures StrEq(image, p, name, 0) <==> stored == name
  {
    StrEqExact(image, p, name, 0);
    assert name[0..] == name;
    if |name| < |stored| {
      assert image[p + |name|] == image[p..p + |stored|][|name|] == stored[|name|];
    } else if |name| > |stored| && p + |name| < |image| {
      assert image[p + |stored|] == image[p..p + |name|][|stored|];
    }
  }

  /** The first header from `i` on with the given name. */
  function Find(image: seq<u8>, name: seq<u8>, i: nat): (r: Option<nat>)
    decreases Word(image, 8) - i
  {
    if i >= Word(image, 8) then None
    else if StrEq(image, HeaderAt(i) + 8, name, 0) then Some(i)
    else Find(image, name, i + 1)
  }

  /** The first file of a list with the given name. */
  function First(files: seq<File>, name: seq<u8>, i: nat): (r: Option<nat>)
    ensures r.Some? ==> i <= r.value < |files| && files[r.value].name == name
    ensures r == None ==> forall j :: i <= j < |files| ==> files[j].name != name
    decreases |files| - i
  {
    if i >= |files| then None else if files[i].name == name then Some(i) else First(files, name, i + 1)
  }

  /** What the reader sees of header `i` of a packed image. */
  lemma HeaderRead(files: seq<File>, i: nat, name: seq<u8>, junk: nat -> u8)
    requires Packable(files) && i < |files| && NoNul(name)
    ensures var image := Image(files, junk);
      && (StrEq(image, HeaderAt(i) + 8, name, 0) <==> files[i].name == name)
      && Word(image, HeaderAt(i) + 64) == Address(files, i)
      && Word(image, HeaderAt(i) + 72) == |files[i].content|
  {
    hide *;
    var image, h := Image(files, junk), HeaderOf(files, i);
    var p := HeaderAt(i);
    HeaderIs(files, i);
    HeaderInImage(files, i, junk);
    HeaderParts(image, p, h, junk);
    NameSize();
    StrEqStored(image, p + 8, h.name, name);
  }

  lemma NameSize()
    ensures NAME_SIZE == 50 && HEADER_SIZE == 80
  {
  }

  lemma HeaderIs(files: seq<File>, i: nat)
    requires Packable(files) && i < |files|
    ensures var h := HeaderOf(files, i);
      h.name == files[i].name && |h.name| < NAME_SIZE && NoNul(h.name) && h.address == Address(files, i) && h.size == |files[i].content|
  {
    assert IsName(files[i].name);
    hide Address, Total;
  }

  lemma HeaderInImage(files: seq<File>, i: nat, junk: nat -> u8)
    requires Packable(files) && i < |files|
    ensures HeaderAt(i) + HEADER_SIZE <= |Image(files, junk)|
    ensures Image(files, junk)[HeaderAt(i)..HeaderAt(i) + HEADER_SIZE] == HeaderBytes(HeaderOf(files, i), HeaderAt(i), junk)
  {
    hide *;
    NameSize();
    HeaderSlice(files, |files|, i, junk);
    ImageIs(files, i, junk);
    Embedded(HeadBytes(|files|, junk), Headers(files, |files|, junk), Contents(files), HEADER_SIZE * i, HEADER_SIZE * i + HEADER_SIZE);
  }

  lemma ImageIs(files: seq<File>, i: nat, junk: nat -> u8)
    requires Packable(files)
    ensures Image(files, junk) == HeadBytes(|files|, junk) + Headers(files, |files|, junk) + Contents(files)
    ensures HEAD_SIZE == 16 && HeaderAt(i) == HEAD_SIZE + HEADER_SIZE * i
  {
  }

  lemma Embedded(a: seq<u8>, b: seq<u8>, c: seq<u8>, i: nat, j: nat)
    requires i <= j <= |b|
    ensures (a + b + c)[|a| + i..|a| + j] == b[i..j]
  {
    var s := a + b + c;
    forall k | 0 <= k < j - i
      ensures s[|a| + i..|a| + j][k] == b[i..j][k]
    {
      assert s[|a| + (i + k)] == b[i + k];
    }
  }

  lemma HeaderParts(image: seq<u8>, p: nat, h: Header, junk: nat -> u8)
    requires |h.name| < NAME_SIZE && p + HEADER_SIZE <= |image| && image[p..p + HEADER_SIZE] == HeaderBytes(h, p, junk)
    ensures image[p + 8..p + 8 + |h.name|] == h.name && image[p + 8 + |h.name|] == 0
    ensures Word(image, p + 64) == h.address && Word(image, p + 72) == h.size
  {
    hide *;
    WordRound(h.address);
    WordRound(h.size);
    NameSize();
    HeaderPieces(h, p, junk);
    SliceOfSlice(image, p, HEADER_SIZE, 8, 8 + |h.name|);
    SliceOfSlice(image, p, HEADER_SIZE, 8 + |h.name|, 9 + |h.name|);
    SliceOfSlice(image, p, HEADER_SIZE, 64, 72);
    SliceOfSlice(image, p, HEADER_SIZE, 72, 80);
    assert image[p + 8 + |h.name|..p + 9 + |h.name|][0] == image[p + 8 + |h.name|];
    WordIs(image, p + 64);
    WordIs(image, p + 72);
  }

  lemma WordIs(image: seq<u8>, offset: nat)
    requires offset + 8 <= |image|
    ensures Word(image, offset) == Value(image[offset..offset + 8])
  {
  }

  lemma SliceOfSlice(image: seq<u8>, p: nat, n: nat, i: nat, j: nat)
    requires p + n <= |image| && i <= j <= n
    ensures image[p..p + n][i..j] == image[p + i..p + j]
  {
    var a, b := image[p..p + n][i..j], image[p + i..p + j];
    forall k | 0 <= k < j - i
      ensures a[k] == b[k]
    {
      assert image[p..p + n][i + k] == image[p + (i + k)];
    }
  }

  lemma Middle(a: seq<u8>, b: seq<u8>, c: seq<u8>)
    ensures (a + b + c)[|a|..|a| + |b|] == b
  {
  }

  lemma HeaderPieces(h: Header, at: nat, junk: nat -> u8)
    requires |h.name| < NAME_SIZE
    ensures var s := HeaderBytes(h, at, junk);
      && s[8..8 + |h.name|] == h.name && s[8 + |h.name|..9 + |h.name|] == [0]
      && s[64..72] == Bytes(h.address, 8) && s[72..80] == Bytes(h.size, 8)
  {
    var a, b, c := Bytes(h.magic, 8), Bytes(h.address, 8), Bytes(h.size, 8);
    var j, k := Junk(junk, at + 9 + |h.name|, NAME_SIZE - 1 - |h.name|), Junk(junk, at + 58, 6);
    assert HeaderBytes(h, at, junk) == a + (h.name + [0] + j) + k + b + c && NAME_SIZE == 50;
    hide *;
    Pieces(a, h.name, j, k, b, c);
  }

  lemma Pieces(a: seq<u8>, name: seq<u8>, j: seq<u8>, k: seq<u8>, b: seq<u8>, c: seq<u8>)
    requires |a| == |b| == |c| == 8 && |name| + |j| == 49 && |k| == 6
    ensures var s := a + (name + [0] + j) + k + b + c;
      && |s| == 80 && s[8..8 + |name|] == name && s[8 + |name|..9 + |name|] == [0]
      && s[64..72] == b && s[72..80] == c
  {
    var text := name + [0] + j;
    var s := a + text + k + b + c;
    assert s == a + text + (k + b + c);
    Embedded(a, text, k + b + c, 0, |name|);
    Embedded(a, text, k + b + c, |name|, |name| + 1);
    assert text[0..|name|] == name && text[|name|..|name| + 1] == [0];
    Middle(a + text + k, b, c);
    SliceRight(a + text + k + b, c);
  }

  /** Eight bytes, the least significant one first. */
  lemma WordBytes(image: seq<u8>, o: nat)
    requires o + 8 <= |image|
    ensures Word(image, o) == image[o] + (image[o + 1] as int) * 0x100 + (image[o + 2] as int) * 0x1_0000 + (image[o + 3] as int) * 0x100_0000
      + (image[o + 4] as int) * 0x1_0000_0000 + (image[o + 5] as int) * 0x100_0000_0000 + (image[o + 6] as int) * 0x1_0000_0000_0000 + (image[o + 7] as int) * 0x100_0000_0000_0000
  {
    var s := image[o..o + 8];
    ValueOfFour(s[4..]);
    ValueOfFour(s);
    hide Value;
  }

  lemma ValueOfFour(s: seq<u8>)
    requires |s| >= 4
    ensures Value(s) == s[0] + 0x100 * s[1] + 0x1_0000 * s[2] + 0x100_0000 * s[3] + 0x1_0000_0000 * Value(s[4..])
    ensures |s| == 4 ==> Value(s[4..]) == 0
  {
    assert s[1..][1..] == s[2..] && s[2..][1..] == s[3..] && s[3..][1..] == s[4..];
    assert Value(s[1..]) == s[1] + 0x100 * Value(s[2..]);
    assert Value(s[2..]) == s[2] + 0x100 * Value(s[3..]);
    assert Value(s[3..]) == s[3] + 0x100 * Value(s[4..]);
  }

  /** The format of an image: the signature, the number of files at 8, and headers of 80 bytes from 16 on, with a magic
      number, the name at 8, the address at 64 and the size at 72. */
  lemma Layout(files: seq<File>, i: nat, junk: nat -> u8)
    requires Packable(files) && i < |files|
    ensures var image, p, name := Image(files, junk), 16 + 80 * i, files[i].name;
      && |image| >= 16 + 80 * |files| && |name| < 50
      && image[..5] == ['Q' as int, 'U' as int, 'A' as int, 'S' as int, 0] && Word(image, 8) == |files|
      && Word(image, p) == 0xbadcafee
      && image[p + 8..p + 8 + |name|] == name && image[p + 8 + |name|] == 0
      && Word(image, p + 64) == Address(files, i) && Word(image, p + 72) == |files[i].content|
  {
    hide *;
    var image, h, p := Image(files, junk), HeaderOf(files, i), HeaderAt(i);
    ImageSize(files, i);
    HeadRead(files, junk);
    SignatureRead(image);
    HeaderIs(files, i);
    HeaderInImage(files, i, junk);
    HeaderParts(image, p, h, junk);
    MagicRead(image, p, h, junk);
    MagicOf(files, i);
  }

  lemma ImageSize(files: seq<File>, i: nat)
    ensures HEADER_SIZE == 80 && NAME_SIZE == 50 && HeaderAt(i) == 16 + 80 * i
    ensures Address(files, |files|) >= 16 + 80 * |files|
  {
    hide Total;
  }

  lemma MagicOf(files: seq<File>, i: nat)
    requires Packable(files) && i < |files|
    ensures HeaderOf(files, i).magic == 0xbadcafee
  {
    hide Address, Total;
  }

  lemma MagicRead(image: seq<u8>, p: nat, h: Header, junk: nat -> u8)
    requires |h.name| < NAME_SIZE && p + HEADER_SIZE <= |image| && image[p..p + HEADER_SIZE] == HeaderBytes(h, p, junk)
    ensures Word(image, p) == h.magic
  {
    WordRound(h.magic);
    hide Bytes, Junk, Value;
    assert image[p..p + 8] == image[p..p + HEADER_SIZE][..8] == Bytes(h.magic, 8);
  }

  lemma HeadRead(files: seq<File>, junk: nat -> u8)
    requires Packable(files)
    ensures var image := Image(files, junk);
      Word(image, 8) == |files| && StrEq(image, 0, SIGNATURE, 0)
  {
    var image, head := Image(files, junk), HeadBytes(|files|, junk);
    WordRound(|files|);
    hide Bytes, Junk, Value, Limit, Headers, Contents;
    assert head[8..16] == Bytes(|files|, 8);
    assert image[8..8 + 8] == image[..16][8..16] && image[..16] == head;
    StrEqStored(image, 0, SIGNATURE, SIGNATURE);
  }

  /** The reader finds the first file that was packed under a name, and nothing under any other name. */
  lemma {:induction false} FindPacked(files: seq<File>, name: seq<u8>, i: nat, junk: nat -> u8)
    requires Packable(files) && NoNul(name)
    ensures Find(Image(files, junk), name, i) == First(files, name, i)
    decreases |files| - i
  {
    HeadRead(files, junk);
    if i < |files| {
      HeaderRead(files, i, name, junk);
      FindPacked(files, name, i + 1, junk);
    }
    hide Image, StrEq, Word;
  }

  lemma SignatureRead(image: seq<u8>)
    requires StrEq(image, 0, SIGNATURE, 0)
    ensures |image| >= 5 && image[..5] == ['Q' as int, 'U' as int, 'A' as int, 'S' as int, 0]
  {
    StrEqExact(image, 0, SIGNATURE, 0);
    assert image[..5] == image[0..4] + [image[4]] && SIGNATURE[0..] == SIGNATURE;
  }

  class Reader {
    /** The memory from the address of the image on. */
    var image: seq<u8>

    constructor ()
    {
      image := [];
    }

    /** `quasfs_init`. */
    method Init(addr: seq<u8>) returns (r: int)
      modifies this
      ensures image == addr
      ensures r == 0 <==> |addr| >= 5 && addr[..5] == ['Q' as int, 'U' as int, 'A' as int, 'S' as int, 0]
      ensures r != 0 ==> r == 1
    {
      StrEqExact(addr, 0, SIGNATURE, 0);
      assert |addr| >= 5 ==> addr[..5] == addr[0..4] + [addr[4]] && SIGNATURE[0..] == SIGNATURE;

      image := addr;
      r := if StrEq(image, 0, SIGNATURE, 0) then 0 else 1;
    }

    /** The header loop of `quasfs_read` and `quasfs_ftell`. */
    method FindHeader(name: seq<u8>) returns (hdr: Option<nat>)
      ensures var i := Find(image, name, 0); hdr == if i.Some? then Some(HeaderAt(i.value)) else None
    {
      var i := 0;
      while i < Word(image, 8)
        invariant i >= 0 && Find(image, name, i) == Find(image, name, 0)
      {
        if StrEq(image, HeaderAt(i) + 8, name, 0) {
          return Some(HeaderAt(i));
        }
        i := i + 1;
      }
      return None;
    }

    /** `quasfs_read`: the offset of the contents in the image. */
    method Read(name: seq<u8>) returns (address: Option<nat>)
      ensures var i := Find(image, name, 0); address == if i.Some? then Some(Word(image, HeaderAt(i.value) + 64)) else None
    {
      var hdr := FindHeader(name);
      address := if hdr.Some? then Some(Word(image, hdr.value + 64)) else None;
    }

    /** `quasfs_ftell`. */
    method Ftell(name: seq<u8>) returns (size: nat)
      ensures var i := Find(image, name, 0); size == if i.Some? then Word(image, HeaderAt(i.value) + 72) else 0
    {
      var hdr := FindHeader(name);
      size := if hdr.Some? then Word(image, hdr.value + 72) else 0;
    }
  }

  /** The packer: a header table with running addresses, then the image written from front to back. */
  method Pack(files: seq<File>, junk: nat -> u8) returns (image: seq<u8>)
    requires Packable(files)
    ensures image == Image(files, junk)
  {
    hide Headers, HeadBytes, HeaderBytes, HeaderOf, Contents, Packable, Total;
    var n := |files|;
    var headers := FillHeaders(files);
    image := HeadBytes(n, junk);
    HeadersStart(files, junk);
    var i := 0;
    while i < n
      invariant 0 <= i <= n && image == HeadBytes(n, junk) + Headers(files, i, junk)
      invariant forall j :: 0 <= j < n ==> headers[j] == HeaderOf(files, j)
    {
      HeadersNext(files, i, junk);
      image := image + HeaderBytes(headers[i], HeaderAt(i), junk);
      i := i + 1;
    }
    ghost var table := image;
    i := 0;
    ContentsStart(files);
    while i < n
      invariant 0 <= i <= n && image == table + Contents(files[..i])
    {
      ContentsNext(files, i);
      image := image + files[i].content;
      i := i + 1;
    }
  }

  lemma HeadersStart(files: seq<File>, junk: nat -> u8)
    requires Packable(files)
    ensures Headers(files, 0, junk) == []
  {
  }

  lemma HeadersNext(files: seq<File>, i: nat, junk: nat -> u8)
    requires Packable(files) && i < |files|
    ensures |HeaderOf(files, i).name| < NAME_SIZE
    ensures Headers(files, i + 1, junk) == Headers(files, i, junk) + HeaderBytes(HeaderOf(files, i), HeaderAt(i), junk)
  {
  }

  lemma ContentsStart(files: seq<File>)
    ensures files[..0] == [] && Contents([]) == [] && files[..|files|] == files
  {
  }

  lemma ContentsNext(files: seq<File>, i: nat)
    requires i < |files|
    ensures Contents(files[..i + 1]) == Contents(files[..i]) + files[i].content
  {
    assert files[..i + 1][..i] == files[..i];
  }

  method FillHeaders(files: seq<File>) returns (headers: array<Header>)
    requires Packable(files)
    ensures fresh(headers) && headers.Length == |files|
    ensures forall i :: 0 <= i < |files| ==> headers[i] == HeaderOf(files, i)
  {
    headers := new Header[|files|](_ => Header(0, [], 0, 0));
    var address := HEADER_SIZE * |files| + HEAD_SIZE;
    var i := 0;
    while i < |files|
      invariant 0 <= i <= |files| && address == Address(files, i)
      invariant forall j :: 0 <= j < i ==> headers[j] == HeaderOf(files, j)
    {
      Extents(files, i);
      ghost var h := HeaderOf(files, i);
      headers[i] := Header(MAGIC, files[i].name, address, |files[i].content|);
      address := address + |files[i].content|;
      i := i + 1;
    }
  }

  /** Packing and reading back: every file is found under its name with its contents and its length, when no
      earlier file has the same name; an absent name is not found and has length zero. */
  method RoundTrip(files: seq<File>, junk: nat -> u8, name: seq<u8>) returns (r: int, address: Option<nat>, size: nat, image: seq<u8>)
    requires Packable(files) && NoNul(name)
    ensures image == Image(files, junk) && r == 0
    ensures var i := First(files, name, 0);
      if i == None then address == None && size == 0
      else
        && address == Some(Address(files, i.value)) && size == |files[i.value].content|
        && address.value + size <= |image| && image[address.value..address.value + size] == files[i.value].content
  {
    hide *;
    var packed := Pack(files, junk);
    image := packed;
    var reader := new Reader();
    r := reader.Init(packed);
    HeadRead(files, junk);
    SignatureRead(packed);
    address := reader.Read(name);
    size := reader.Ftell(name);
    FindPacked(files, name, 0, junk);
    var i := First(files, name, 0);
    if i.Some? {
      HeaderRead(files, i.value, name, junk);
      ContentInImage(files, i.value, junk);
    }
  }
}
