/** The sections of a slave's EEPROM (ec_main.c): finding one, and reading the PDOs in it. */
module SiiSections {
  import opened EcTypes
  import opened SiiCache

  const ECT_SII_START: nat := 0x40
  const ECT_SII_PDO: nat := 50
  const EC_MAXEEPDO: nat := 0x200

  /** The last byte address that can be read without running over the end of the buffer. */
  const LAST: nat := EC_MAXEEPBUF - 7

  // Finding a section

  /** Category, and length in words. */
  datatype Section = Section(cat: uint16, length: nat)

  /** The EEPROM holds these sections from byte address `a` on, and then the end mark. */
  ghost predicate Lists(bytes: seq<byte>, a: nat, ss: seq<Section>)
    requires |bytes| >= EC_MAXEEPBUF
    decreases |ss|
  {
    && a + 1 <= LAST
    && if ss == [] then WordAt(bytes, a) == 0xffff
       else
         && WordAt(bytes, a) == ss[0].cat != 0xffff
         && a + 3 <= LAST && WordAt(bytes, a + 2) as int == ss[0].length
         && Lists(bytes, a + 4 + 2 * ss[0].length, ss[1..])
  }

  /** Byte address of the length of the first section with this category, or 0. */
  function FindFirst(ss: seq<Section>, a: nat, cat: uint16): nat {
    if ss == [] then 0
    else if ss[0].cat == cat then a + 2
    else FindFirst(ss[1..], a + 4 + 2 * ss[0].length, cat)
  }

  /** Where section `i` begins. */
  function SectionStart(ss: seq<Section>, a: nat, i: nat): nat
    requires i <= |ss|
  {
    if i == 0 then a else SectionStart(ss[1..], a + 4 + 2 * ss[0].length, i - 1)
  }

  /** The first section of the category, by position: it is found if there is one, and 0 is
      returned if there is none. */
  lemma {:induction false} FindsTheFirst(ss: seq<Section>, a: nat, cat: uint16)
    ensures FindFirst(ss, a, cat) == 0 <==> forall j :: 0 <= j < |ss| ==> ss[j].cat != cat
    ensures forall i :: 0 <= i < |ss| && ss[i].cat == cat && (forall j :: 0 <= j < i ==> ss[j].cat != cat) ==>
      FindFirst(ss, a, cat) == SectionStart(ss, a, i) + 2
  {
    if ss != [] && ss[0].cat != cat {
      var rest := ss[1..];
      FindsTheFirst(rest, a + 4 + 2 * ss[0].length, cat);
      assert forall j :: 0 < j < |ss| ==> ss[j] == rest[j - 1];
      forall i | 0 <= i < |ss| && ss[i].cat == cat && (forall j :: 0 <= j < i ==> ss[j].cat != cat)
        ensures FindFirst(ss, a, cat) == SectionStart(ss, a, i) + 2
      {
        assert forall j :: 0 <= j < i - 1 ==> rest[j] == ss[j + 1];
        assert rest[i - 1].cat == cat;
      }
    }
  }

  // Sections as they are written

  /** A section with its contents. */
  datatype Block = Block(cat: uint16, contents: seq<byte>)

  /** Sections have whole words; 0xffff marks the end of the list. */
  ghost predicate Writable(b: Block) {
    b.cat != 0xffff && |b.contents| % 2 == 0 && |b.contents| < 0x2_0000
  }

  /** The bytes of a list of sections: category and length in words, low byte first, and the contents. */
  function Written(bs: seq<Block>): seq<byte> {
    if bs == [] then [0xff, 0xff]
    else
      var n := |bs[0].contents| / 2;
      [bs[0].cat % 0x100, bs[0].cat / 0x100, n % 0x100, n / 0x100 % 0x100] + bs[0].contents + Written(bs[1..])
  }

  function SectionsOf(bs: seq<Block>): (ss: seq<Section>)
    ensures |ss| == |bs| && forall i :: 0 <= i < |bs| ==> ss[i] == Section(bs[i].cat, |bs[i].contents| / 2)
  {
    seq(|bs|, i requires 0 <= i < |bs| => Section(bs[i].cat, |bs[i].contents| / 2))
  }

  lemma {:induction false} FirstWritten(bytes: seq<byte>, a: nat, bs: seq<Block>)
    requires |bytes| >= EC_MAXEEPBUF && a + |Written(bs)| <= EC_MAXEEPBUF && bytes[a..a + |Written(bs)|] == Written(bs)
    requires |bs| > 0 && Writable(bs[0])
    ensures |Written(bs)| >= 6 + |bs[0].contents|
    ensures WordAt(bytes, a) == bs[0].cat && WordAt(bytes, a + 2) as int == |bs[0].contents| / 2
    ensures bytes[a + 4..a + 4 + |bs[0].contents|] == bs[0].contents
    ensures var next := a + 4 + |bs[0].contents|;
            |Written(bs)| == 4 + |bs[0].contents| + |Written(bs[1..])|
            && bytes[next..next + |Written(bs[1..])|] == Written(bs[1..])
  {
    var c, rest := bs[0].contents, Written(bs[1..]);
    var n := |c| / 2;
    var header: seq<byte> := [bs[0].cat % 0x100, bs[0].cat / 0x100, n % 0x100, n / 0x100 % 0x100];
    EndIsThere(bs[1..]);
    assert Written(bs) == header + c + rest;
    hide Written;
    ThreeParts(bytes, a, header, c, rest);
    assert bytes[a] == bytes[a..a + 4][0] && bytes[a + 1] == bytes[a..a + 4][1];
    assert bytes[a + 2] == bytes[a..a + 4][2] && bytes[a + 3] == bytes[a..a + 4][3];
  }

  lemma {:induction false} SlicesOf(bytes: seq<byte>, a: nat, at: seq<byte>, i: nat, j: nat)
    requires a + |at| <= |bytes| && bytes[a..a + |at|] == at && i <= j <= |at|
    ensures bytes[a + i..a + j] == at[i..j]
  {
    var r, s := bytes[a + i..a + j], at[i..j];
    forall k | 0 <= k < j - i ensures r[k] == s[k] {
      assert bytes[a..a + |at|][i + k] == bytes[a + (i + k)];
    }
  }

  lemma {:induction false} ThreeParts(bytes: seq<byte>, a: nat, x: seq<byte>, y: seq<byte>, z: seq<byte>)
    requires a + |x| + |y| + |z| <= |bytes| && bytes[a..a + |x + y + z|] == x + y + z
    ensures bytes[a..a + |x|] == x
    ensures bytes[a + |x|..a + |x| + |y|] == y
    ensures bytes[a + |x| + |y|..a + |x| + |y| + |z|] == z
  {
    var at, i, j := x + y + z, |x|, |x| + |y|;
    assert at[..i] == x && at[i..j] == y && at[j..] == z;
    SlicesOf(bytes, a, at, 0, i);
    SlicesOf(bytes, a, at, i, j);
    SlicesOf(bytes, a, at, j, |at|);
  }

  lemma {:induction false} EndIsThere(bs: seq<Block>)
    ensures |Written(bs)| >= 2 && (bs == [] ==> Written(bs)[0] == Written(bs)[1] == 0xff)
  {
    if bs != [] {
      EndIsThere(bs[1..]);
    }
  }

  lemma {:induction false} WrittenLists(bytes: seq<byte>, a: nat, bs: seq<Block>)
    requires |bytes| >= EC_MAXEEPBUF && a + |Written(bs)| + 7 <= EC_MAXEEPBUF
    requires bytes[a..a + |Written(bs)|] == Written(bs) && forall i :: 0 <= i < |bs| ==> Writable(bs[i])
    ensures Lists(bytes, a, SectionsOf(bs))
    decreases |bs|
  {
    hide WordAt;
    hide Written;
    EndIsThere(bs);
    if bs == [] {
      EndMark(bytes, a);
    } else {
      FirstWritten(bytes, a, bs);
      WrittenLists(bytes, a + 4 + |bs[0].contents|, bs[1..]);
      SectionsFront(bs);
      hide SectionsOf;
    }
  }

  lemma {:induction false} SectionsFront(bs: seq<Block>)
    requires |bs| > 0
    ensures |SectionsOf(bs)| > 0 && SectionsOf(bs)[1..] == SectionsOf(bs[1..])
    ensures SectionsOf(bs)[0] == Section(bs[0].cat, |bs[0].contents| / 2)
  {
  }

  lemma {:induction false} FindNext(bs: seq<Block>, a: nat, cat: uint16)
    requires |bs| > 0 && Writable(bs[0])
    ensures FindFirst(SectionsOf(bs), a, cat)
            == if bs[0].cat == cat then a + 2 else FindFirst(SectionsOf(bs[1..]), a + 4 + |bs[0].contents|, cat)
  {
    SectionsFront(bs);
    hide SectionsOf;
  }

  /** A list of sections that is written into the EEPROM is a list of these sections, and the first one
      of a category is found, with its contents behind its length. */
  lemma {:induction false} WrittenIsFound(bytes: seq<byte>, a: nat, bs: seq<Block>, i: nat)
    requires |bytes| >= EC_MAXEEPBUF && a + |Written(bs)| + 7 <= EC_MAXEEPBUF
    requires bytes[a..a + |Written(bs)|] == Written(bs) && forall j :: 0 <= j < |bs| ==> Writable(bs[j])
    requires i < |bs| && forall j :: 0 <= j < i ==> bs[j].cat != bs[i].cat
    ensures Lists(bytes, a, SectionsOf(bs))
    ensures var at := FindFirst(SectionsOf(bs), a, bs[i].cat) + 2;
            at + |bs[i].contents| <= |bytes| && bytes[at..at + |bs[i].contents|] == bs[i].contents
    decreases |bs|
  {
    hide *;
    WrittenLists(bytes, a, bs);
    FirstWritten(bytes, a, bs);
    FindNext(bs, a, bs[i].cat);
    if i > 0 {
      assert bs[0].cat != bs[i].cat && bs[1..][i - 1] == bs[i];
      WrittenIsFound(bytes, a + 4 + |bs[0].contents|, bs[1..], i - 1);
    }
  }

  lemma {:induction false} EndMark(bytes: seq<byte>, a: nat)
    requires |bytes| >= EC_MAXEEPBUF && a + 9 <= EC_MAXEEPBUF && bytes[a..a + 2] == [0xff, 0xff]
    ensures Lists(bytes, a, [])
  {
    assert bytes[a] == bytes[a..a + 2][0] && bytes[a + 1] == bytes[a..a + 2][1];
  }

  /** Walks through the sections until the category or the end is found. */
  method SiiFind(cache: Cache, devices: seq<Eeprom>, slave: nat, cat: uint16, ghost ss: seq<Section>) returns (r: nat)
    requires cache.Shaped() && cache.Agrees(devices) && slave < |devices| && Readable(devices[slave])
    requires cat != 0xffff && Lists(devices[slave].bytes, 2 * ECT_SII_START, ss)
    modifies cache`esislave, cache.esibuf, cache.esimap
    ensures cache.Agrees(devices)
    ensures r == FindFirst(ss, 2 * ECT_SII_START, cat)
  {
    hide WordAt;
    ghost var bytes := devices[slave].bytes;
    ghost var rest, at: nat := ss, 2 * ECT_SII_START;
    var a: nat := 2 * ECT_SII_START;
    var p := cache.SiiGetWord(devices, slave, a);
    a := a + 2;
    while p != cat && p != 0xffff
      invariant cache.Agrees(devices) && a == at + 2 && Lists(bytes, at, rest) && p == WordAt(bytes, at)
      invariant FindFirst(ss, 2 * ECT_SII_START, cat) == FindFirst(rest, at, cat)
      decreases |rest|
    {
      p := cache.SiiGetWord(devices, slave, a);
      a := a + 2;
      a := a + 2 * (p as int);
      at := at + 4 + 2 * rest[0].length;
      rest := rest[1..];
      p := cache.SiiGetWord(devices, slave, a);
      a := a + 2;
    }
    r := if p != cat then 0 else a;
  }

  // Reading the PDOs

  /** A PDO as the table records it: bits are those of its entries if its sync manager exists. */
  datatype Pdo = Pdo(index: uint16, sm: byte, bits: nat, words: nat)

  /** Byte addresses are 16 bits wide. */
  function ByteOf(bytes: seq<byte>, a: nat): byte
    requires |bytes| >= EC_MAXEEPBUF
  {
    ByteAt(bytes, a % 0x1_0000)
  }

  /** Bits of the first `e` entries, which start at byte address `a`; each has eight bytes. */
  function EntryBits(bytes: seq<byte>, a: nat, e: nat): (bits: nat)
    requires |bytes| >= EC_MAXEEPBUF
    ensures bits <= 255 * e
  {
    if e == 0 then 0 else EntryBits(bytes, a, e - 1) + ByteOf(bytes, a + 8 * (e - 1) + 5) as int
  }

  predicate Active(sm: byte) {
    sm as int < EC_MAXSM
  }

  function PdoAt(bytes: seq<byte>, a: nat): Pdo
    requires |bytes| >= EC_MAXEEPBUF
  {
    var e := ByteOf(bytes, a + 2) as int;
    var sm := ByteOf(bytes, a + 3);
    Pdo(ByteOf(bytes, a) as int + 0x100 * (ByteOf(bytes, a + 1) as int), sm,
        if Active(sm) then EntryBits(bytes, a + 8, e) else 0, 4 + 4 * e)
  }

  /** What 16 bits hold of a number. */
  function Low16(x: nat): nat {
    x % 0x1_0000
  }

  /** Byte address of word `c` of the section whose length is at `start`. */
  function CursorOf(start: nat, c: nat): (a: nat)
    ensures a < 0x1_0000
  {
    (start + 2 * c) % 0x1_0000
  }

  /** The PDOs that are read from word `c` on, after `n` of them: at least one, until the word
      count has reached the length of the section, or the table is full. */
  function PdosFrom(bytes: seq<byte>, start: nat, c: nat, length: nat, n: nat): (ps: seq<Pdo>)
    requires |bytes| >= EC_MAXEEPBUF && n < EC_MAXEEPDO - 1
    ensures 0 < |ps| <= EC_MAXEEPDO - 1 - n
    decreases EC_MAXEEPDO - n
  {
    var p := PdoAt(bytes, CursorOf(start, c));
    var c' := (c + p.words) % 0x1_0000;
    if n + 1 >= EC_MAXEEPDO - 1 || c' >= length then [p] else [p] + PdosFrom(bytes, start, c', length, n + 1)
  }

  /** Bits of the PDOs of one sync manager, and of all of them. */
  function SmBits(ps: seq<Pdo>, sm: nat): nat {
    if ps == [] then 0 else SmBits(ps[..|ps| - 1], sm) + (if ps[|ps| - 1].sm as int == sm then ps[|ps| - 1].bits else 0)
  }

  function TotalBits(ps: seq<Pdo>): nat {
    if ps == [] then 0 else TotalBits(ps[..|ps| - 1]) + ps[|ps| - 1].bits
  }

  /** Bits of the first `k` sync managers. */
  function SmSum(ps: seq<Pdo>, k: nat): nat {
    if k == 0 then 0 else SmSum(ps, k - 1) + SmBits(ps, k - 1)
  }

  ghost predicate OnlyActive(ps: seq<Pdo>) {
    forall i :: 0 <= i < |ps| ==> !Active(ps[i].sm) ==> ps[i].bits == 0
  }

  lemma {:induction false} SmSumStep(ps: seq<Pdo>, p: Pdo, k: nat)
    ensures SmSum(ps + [p], k) == SmSum(ps, k) + (if (p.sm as int) < k then p.bits else 0)
  {
    if k > 0 {
      SmSumStep(ps, p, k - 1);
      assert (ps + [p])[..|ps|] == ps;
    }
  }

  /** No bit is lost or counted twice: the sync managers together have the bits of all PDOs. */
  lemma {:induction false} BitsAreConserved(ps: seq<Pdo>)
    requires OnlyActive(ps)
    ensures SmSum(ps, EC_MAXSM) == TotalBits(ps)
  {
    if ps == [] {
      NoBits(EC_MAXSM);
    } else {
      var front, p := ps[..|ps| - 1], ps[|ps| - 1];
      assert front + [p] == ps;
      BitsAreConserved(front);
      SmSumStep(front, p, EC_MAXSM);
      assert !Active(ps[|ps| - 1].sm) ==> p.bits == 0;
    }
  }

  lemma {:induction false} NoBits(k: nat)
    ensures SmSum([], k) == 0
  {
    if k > 0 {
      NoBits(k - 1);
    }
  }

  lemma {:induction false} ReadPdosAreActive(bytes: seq<byte>, start: nat, c: nat, length: nat, n: nat)
    requires |bytes| >= EC_MAXEEPBUF && n < EC_MAXEEPDO - 1
    ensures OnlyActive(PdosFrom(bytes, start, c, length, n))
    decreases EC_MAXEEPDO - n
  {
    var p := PdoAt(bytes, CursorOf(start, c));
    var c' := (c + p.words) % 0x1_0000;
    if !(n + 1 >= EC_MAXEEPDO - 1 || c' >= length) {
      ReadPdosAreActive(bytes, start, c', length, n + 1);
    }
  }

  /** For every content of the EEPROM, the size that is returned and the sum over the sync managers
      agree, in 16 bits. */
  lemma {:induction false} SizeIsConserved(bytes: seq<byte>, start: nat)
    requires |bytes| >= EC_MAXEEPBUF
    ensures var ps := PdosFrom(bytes, start, 1, WordAt(bytes, start) as int, 0);
            TotalBits(ps) % 0x1_0000 == SmSum(ps, EC_MAXSM) % 0x1_0000 && |ps| <= 511
  {
    ReadPdosAreActive(bytes, start, 1, WordAt(bytes, start) as int, 0);
    BitsAreConserved(PdosFrom(bytes, start, 1, WordAt(bytes, start) as int, 0));
  }

  // What the section was made from

  /** A PDO as a slave describes it: one byte for the bits of each entry. */
  datatype Description = Description(index: uint16, sm: byte, entries: seq<byte>)

  function EntrySum(entries: seq<byte>): nat {
    if entries == [] then 0 else EntrySum(entries[..|entries| - 1]) + entries[|entries| - 1] as int
  }

  function Recorded(d: Description): Pdo {
    Pdo(d.index, d.sm, if Active(d.sm) then EntrySum(d.entries) else 0, 4 + 4 * |d.entries|)
  }

  function AllRecorded(ds: seq<Description>): (ps: seq<Pdo>)
    ensures |ps| == |ds|
  {
    if ds == [] then [] else [Recorded(ds[0])] + AllRecorded(ds[1..])
  }

  function Words(ds: seq<Description>): nat {
    if ds == [] then 0 else 4 + 4 * |ds[0].entries| + Words(ds[1..])
  }

  /** The EEPROM describes this PDO at byte address `a`. */
  ghost predicate Describes(bytes: seq<byte>, a: nat, d: Description)
    requires |bytes| >= EC_MAXEEPBUF
  {
    && a + 8 + 8 * |d.entries| <= EC_MAXEEPBUF && |d.entries| <= 255
    && WordAt(bytes, a) == d.index && bytes[a + 2] as int == |d.entries| && bytes[a + 3] == d.sm
    && forall i :: 0 <= i < |d.entries| ==> d.entries[i] == ByteOf(bytes, a + 8 + 8 * i + 5)
  }

  ghost predicate DescribesAll(bytes: seq<byte>, a: nat, ds: seq<Description>)
    requires |bytes| >= EC_MAXEEPBUF
    decreases |ds|
  {
    ds == [] || (Describes(bytes, a, ds[0]) && DescribesAll(bytes, a + 8 + 8 * |ds[0].entries|, ds[1..]))
  }

  lemma {:induction false} EntriesRead(bytes: seq<byte>, a: nat, d: Description, k: nat)
    requires |bytes| >= EC_MAXEEPBUF && Describes(bytes, a, d) && k <= |d.entries|
    ensures EntryBits(bytes, a + 8, k) == EntrySum(d.entries[..k])
  {
    if k > 0 {
      EntriesRead(bytes, a, d, k - 1);
      assert d.entries[..k][..k - 1] == d.entries[..k - 1];
      assert d.entries[k - 1] == ByteOf(bytes, a + 8 + 8 * (k - 1) + 5);
    }
  }

  lemma {:induction false} PdoRead(bytes: seq<byte>, a: nat, d: Description)
    requires |bytes| >= EC_MAXEEPBUF && Describes(bytes, a, d)
    ensures PdoAt(bytes, a) == Recorded(d)
  {
    hide EntrySum;
    hide EntryBits;
    EntriesRead(bytes, a, d, |d.entries|);
    assert d.entries[..|d.entries|] == d.entries;
    SmallMod(a, 0x1_0000);
    SmallMod(a + 1, 0x1_0000);
    SmallMod(a + 2, 0x1_0000);
    SmallMod(a + 3, 0x1_0000);
    DescribesHeader(bytes, a, d);
    hide Describes;
  }

  lemma {:induction false} DescribesHeader(bytes: seq<byte>, a: nat, d: Description)
    requires |bytes| >= EC_MAXEEPBUF && Describes(bytes, a, d)
    ensures a + 8 <= EC_MAXEEPBUF && WordAt(bytes, a) == d.index
    ensures ByteAt(bytes, a + 2) as int == |d.entries| && ByteAt(bytes, a + 3) == d.sm
  {
  }

  lemma {:induction false} PdosRead(bytes: seq<byte>, start: nat, c: nat, n: nat, ds: seq<Description>)
    requires |bytes| >= EC_MAXEEPBUF && |ds| > 0 && n + |ds| <= EC_MAXEEPDO - 1
    requires DescribesAll(bytes, start + 2 * c, ds) && start + 2 * c + 2 * Words(ds) <= EC_MAXEEPBUF
    ensures PdosFrom(bytes, start, c, c - 1 + Words(ds), n) == AllRecorded(ds)
    decreases |ds|
  {
    hide PdoAt;
    hide Describes;
    hide DescribesAll;
    hide PdosFrom;
    hide Words;
    hide AllRecorded;
    var w := 4 + 4 * |ds[0].entries|;
    DescribesStep(bytes, start + 2 * c, ds);
    PdoRead(bytes, start + 2 * c, ds[0]);
    PdosStep(bytes, start, c, c - 1 + Words(ds), n);
    hide Recorded;
    if |ds| > 1 {
      ManyWords(ds[1..]);
      assert start + 2 * c + 8 + 8 * |ds[0].entries| == start + 2 * (c + w);
      PdosRead(bytes, start, c + w, n + 1, ds[1..]);
    } else {
      NoMore(ds);
    }
  }

  lemma {:induction false} DescribesStep(bytes: seq<byte>, a: nat, ds: seq<Description>)
    requires |bytes| >= EC_MAXEEPBUF && |ds| > 0 && DescribesAll(bytes, a, ds)
    ensures Describes(bytes, a, ds[0]) && DescribesAll(bytes, a + 8 + 8 * |ds[0].entries|, ds[1..])
    ensures Words(ds) == 4 + 4 * |ds[0].entries| + Words(ds[1..])
    ensures AllRecorded(ds) == [Recorded(ds[0])] + AllRecorded(ds[1..])
      && Recorded(ds[0]).words == 4 + 4 * |ds[0].entries|
  {
    hide Describes;
  }

  lemma {:induction false} NoMore(ds: seq<Description>)
    requires |ds| == 1
    ensures Words(ds[1..]) == 0 && AllRecorded(ds[1..]) == []
  {
    assert ds[1..] == [];
  }

  lemma {:induction false} PdosStep(bytes: seq<byte>, start: nat, c: nat, length: nat, n: nat)
    requires |bytes| >= EC_MAXEEPBUF && n < EC_MAXEEPDO - 1
    requires start + 2 * c < 0x1_0000 && c + PdoAt(bytes, start + 2 * c).words < 0x1_0000
    ensures var p := PdoAt(bytes, start + 2 * c);
            PdosFrom(bytes, start, c, length, n) ==
            [p] + if n + 1 >= EC_MAXEEPDO - 1 || c + p.words >= length then []
                  else PdosFrom(bytes, start, c + p.words, length, n + 1)
  {
    hide PdoAt;
    hide CursorOf;
    hide PdosFrom;
    CursorInRange(start, c);
    SmallMod(c + PdoAt(bytes, start + 2 * c).words, 0x1_0000);
    PdosUnfold(bytes, start, c, length, n);
  }

  lemma {:induction false} CursorInRange(start: nat, c: nat)
    requires start + 2 * c < 0x1_0000
    ensures CursorOf(start, c) == start + 2 * c
  {
  }

  lemma {:induction false} PdosUnfold(bytes: seq<byte>, start: nat, c: nat, length: nat, n: nat)
    requires |bytes| >= EC_MAXEEPBUF && n < EC_MAXEEPDO - 1
    ensures var p := PdoAt(bytes, CursorOf(start, c));
            var c' := (c + p.words) % 0x1_0000;
            PdosFrom(bytes, start, c, length, n) ==
            [p] + if n + 1 >= EC_MAXEEPDO - 1 || c' >= length then [] else PdosFrom(bytes, start, c', length, n + 1)
  {
    hide PdoAt;
    hide CursorOf;
  }

  /** A section in the buffer that describes PDOs is read as exactly those PDOs, if and only if
      there are any: from an empty section one PDO is read that is not there. */
  lemma {:induction false} SectionIsRead(bytes: seq<byte>, start: nat, ds: seq<Description>)
    requires |bytes| >= EC_MAXEEPBUF && DescribesAll(bytes, start + 2, ds)
    requires start + 2 + 2 * Words(ds) <= EC_MAXEEPBUF && WordAt(bytes, start) as int == Words(ds)
    ensures PdosFrom(bytes, start, 1, WordAt(bytes, start) as int, 0) == AllRecorded(ds) <==> ds != []
  {
    if ds != [] {
      ManyWords(ds);
      assert |ds| <= EC_MAXEEPDO - 1 by {
        AtMost(ds, start);
      }
      PdosRead(bytes, start, 1, 0, ds);
    }
  }

  /** An EEPROM with nothing in it but an empty section of PDOs: the section is found, and a PDO is
      read from what follows it, which is the end mark of the list. */
  lemma {:induction false} EmptySectionIsMisread()
    ensures var bytes: seq<byte> :=
              seq(EC_MAXEEPBUF, i => if i == 128 then 50 else if i == 132 || i == 133 then 0xff else 0);
            var ss := [Section(ECT_SII_PDO, 0)];
            && Lists(bytes, 2 * ECT_SII_START, ss) && FindFirst(ss, 2 * ECT_SII_START, ECT_SII_PDO) == 130
            && DescribesAll(bytes, 132, []) && WordAt(bytes, 130) as int == Words([])
            && PdosFrom(bytes, 130, 1, 0, 0) == [Pdo(0xffff, 0, 0, 4)] && AllRecorded([]) == []
  {
    var bytes: seq<byte> :=
      seq(EC_MAXEEPBUF, i => if i == 128 then 50 else if i == 132 || i == 133 then 0xff else 0);
    var ss := [Section(ECT_SII_PDO, 0)];
    assert ss[1..] == [];
    assert WordAt(bytes, 132) == 0xffff && Lists(bytes, 132, []);
    assert WordAt(bytes, 128) == 50 && WordAt(bytes, 130) == 0;
    assert Lists(bytes, 128, ss);
    hide Lists;
    assert PdoAt(bytes, 132) == Pdo(0xffff, 0, 0, 4);
    PdosStep(bytes, 130, 1, 0, 0);
  }

  lemma {:induction false} ManyWords(ds: seq<Description>)
    ensures Words(ds) >= 4 * |ds|
  {
    if ds != [] {
      ManyWords(ds[1..]);
    }
  }

  /** The table has room for every section that fits the buffer. */
  lemma {:induction false} AtMost(ds: seq<Description>, start: nat)
    requires start + 2 + 2 * Words(ds) <= EC_MAXEEPBUF
    ensures |ds| <= EC_MAXEEPDO - 1
  {
    ManyWords(ds);
  }

  // The method that fills the table

  /** Everything that is read of one PDO lies where the cache can read it. */
  ghost predicate PdoReadable(bytes: seq<byte>, a: nat)
    requires |bytes| >= EC_MAXEEPBUF
  {
    a + 3 <= LAST && (Active(PdoAt(bytes, a).sm) ==> a + 2 * PdoAt(bytes, a).words <= LAST + 3)
  }

  /** The same of all PDOs that are read from word `c` on. */
  ghost predicate AllReadable(bytes: seq<byte>, start: nat, c: nat, length: nat, n: nat)
    requires |bytes| >= EC_MAXEEPBUF && n < EC_MAXEEPDO - 1
    decreases EC_MAXEEPDO - n
  {
    && PdoReadable(bytes, CursorOf(start, c))
    && var c' := (c + PdoAt(bytes, CursorOf(start, c)).words) % 0x1_0000;
       (n + 1 >= EC_MAXEEPDO - 1 || c' >= length || AllReadable(bytes, start, c', length, n + 1))
  }

  lemma {:induction false} ReadableUnfold(bytes: seq<byte>, start: nat, c: nat, length: nat, n: nat)
    requires |bytes| >= EC_MAXEEPBUF && n < EC_MAXEEPDO - 1 && AllReadable(bytes, start, c, length, n)
    ensures PdoReadable(bytes, CursorOf(start, c))
    ensures var c' := (c + PdoAt(bytes, CursorOf(start, c)).words) % 0x1_0000;
            n + 1 < EC_MAXEEPDO - 1 && c' < length ==> AllReadable(bytes, start, c', length, n + 1)
  {
    hide PdoAt;
    hide PdoReadable;
    hide CursorOf;
  }

  /** The table of the PDOs of one direction; entry 0 is not used. */
  class PdoTable {
    var Startpos: nat
    var Length: nat
    var nPDO: nat
    const Index: array<nat>
    const SyncM: array<nat>
    const BitSize: array<nat>
    const SMbitsize: array<nat>

    constructor ()
      ensures Shaped() && fresh(Index) && fresh(SyncM) && fresh(BitSize) && fresh(SMbitsize)
    {
      Index := new nat[EC_MAXEEPDO];
      SyncM := new nat[EC_MAXEEPDO];
      BitSize := new nat[EC_MAXEEPDO];
      SMbitsize := new nat[EC_MAXSM];
    }

    ghost predicate Shaped() {
      && Index.Length == SyncM.Length == BitSize.Length == EC_MAXEEPDO && SMbitsize.Length == EC_MAXSM
      && Index != SyncM && Index != BitSize && SyncM != BitSize && SMbitsize !in {Index, SyncM, BitSize}
    }

    /** Entry `k + 1` of the table is this PDO. */
    ghost predicate Entry(k: nat, p: Pdo)
      requires Shaped() && k + 1 < EC_MAXEEPDO
      reads Index, SyncM, BitSize
    {
      Index[k + 1] == p.index as int && SyncM[k + 1] == p.sm as int && BitSize[k + 1] == p.bits
    }

    /** The table holds these PDOs, and the bits of every sync manager, in 16 bits. */
    ghost predicate Holds(ps: seq<Pdo>)
      requires Shaped()
      reads this`nPDO, Index, SyncM, BitSize, SMbitsize
    {
      && nPDO == |ps| < EC_MAXEEPDO
      && (forall k :: 0 <= k < |ps| ==> Entry(k, ps[k]))
      && forall sm :: 0 <= sm < EC_MAXSM ==> SMbitsize[sm] == SmBits(ps, sm) % 0x1_0000
    }

    method Clear()
      requires Shaped()
      modifies this`nPDO, this`Length, SMbitsize
      ensures nPDO == 0 && Length == 0 && Holds([])
    {
      nPDO, Length := 0, 0;
      forall c | 0 <= c < EC_MAXSM {
        SMbitsize[c] := 0;
      }
    }

    /** Records one more PDO. */
    method Add(p: Pdo, ghost ps: seq<Pdo>)
      requires Shaped() && Holds(ps) && nPDO + 1 < EC_MAXEEPDO && (!Active(p.sm) ==> p.bits == 0)
      modifies this`nPDO, Index, SyncM, BitSize, SMbitsize
      ensures Holds(ps + [p])
    {
      ghost var was := SMbitsize[..];
      nPDO := nPDO + 1;
      Index[nPDO] := p.index as int;
      SyncM[nPDO] := p.sm as int;
      BitSize[nPDO] := p.bits;
      if p.sm as int < EC_MAXSM {
        SMbitsize[p.sm] := (SMbitsize[p.sm] + p.bits) % 0x1_0000;
      }
      assert (ps + [p])[..|ps|] == ps;
      forall sm | 0 <= sm < EC_MAXSM ensures SMbitsize[sm] == SmBits(ps + [p], sm) % 0x1_0000 {
        AddMod(SmBits(ps, sm), p.bits);
      }
      forall k | 0 <= k < |ps| ensures Entry(k, (ps + [p])[k]) {
        assert old(Entry(k, ps[k]));
      }
    }
  }

  lemma {:induction false} AddMod(x: nat, y: nat)
    ensures (x % 0x1_0000 + y) % 0x1_0000 == (x + y) % 0x1_0000
  {
  }

  lemma {:induction false} PdoParts(bytes: seq<byte>, a: nat)
    requires |bytes| >= EC_MAXEEPBUF && a + 3 <= LAST
    ensures var e, sm := ByteAt(bytes, a + 2) as int, ByteAt(bytes, a + 3);
            PdoAt(bytes, a)
              == Pdo(WordAt(bytes, a), sm, if Active(sm) then EntryBits(bytes, a + 8, e) else 0, 4 + 4 * e)
    ensures EntryBits(bytes, a + 8, 0) == 0
  {
    hide EntryBits;
    hide Active;
    SmallMod(a, 0x1_0000);
    SmallMod(a + 1, 0x1_0000);
    SmallMod(a + 2, 0x1_0000);
    SmallMod(a + 3, 0x1_0000);
    assert EntryBits(bytes, a + 8, 0) == 0 by { NoEntries(bytes, a + 8); }
  }

  lemma {:induction false} NoEntries(bytes: seq<byte>, a: nat)
    requires |bytes| >= EC_MAXEEPBUF
    ensures EntryBits(bytes, a, 0) == 0
  {
  }

  lemma {:induction false} EntryStep(bytes: seq<byte>, a: nat, e: nat)
    requires |bytes| >= EC_MAXEEPBUF && a + 8 * e + 5 < 0x1_0000
    ensures EntryBits(bytes, a, e + 1) == EntryBits(bytes, a, e) + ByteAt(bytes, a + 8 * e + 5) as int
  {
    SmallMod(a + 8 * e + 5, 0x1_0000);
    hide ByteAt;
  }

  /** Adds up the bits of the entries of a PDO; returns the cursors behind them. */
  method ReadEntries(cache: Cache, devices: seq<Eeprom>, slave: nat, a0: nat, c0: nat, e: nat)
      returns (bits: nat, a: nat, c: nat)
    requires cache.Shaped() && cache.Agrees(devices) && slave < |devices| && Readable(devices[slave])
    requires a0 + 8 * e <= LAST + 3
    modifies cache`esislave, cache.esibuf, cache.esimap
    ensures cache.Agrees(devices)
    ensures bits == EntryBits(devices[slave].bytes, a0, e) && a == a0 + 8 * e && c == c0 + 4 * e
  {
    ghost var bytes := devices[slave].bytes;
    NoEntries(bytes, a0);
    hide EntryBits;
    hide ByteAt;
    bits, a, c := 0, a0, c0;
    for er := 0 to e
      invariant cache.Agrees(devices) && bits == EntryBits(bytes, a0, er)
      invariant a == a0 + 8 * er && c == c0 + 4 * er
    {
      c := c + 4;
      a := a + 5;
      EntryStep(bytes, a0, er);
      var b := cache.SiiGetByte(devices, slave, a);
      bits := bits + b as int;
      a := a + 1;
      a := a + 2;
    }
  }

  lemma {:induction false} PdoBounds(bytes: seq<byte>, a: nat)
    requires |bytes| >= EC_MAXEEPBUF && PdoReadable(bytes, a)
    ensures a + 3 <= LAST && (Active(ByteAt(bytes, a + 3)) ==> a + 8 + 8 * (ByteAt(bytes, a + 2) as int) <= LAST + 3)
  {
    PdoParts(bytes, a);
    hide PdoAt;
    hide ByteAt;
  }

  lemma {:induction false} InReach(d: Eeprom, last: nat)
    requires last <= LAST
    ensures forall a :: 0 <= a <= last ==> Fetchable(d, a)
  {
  }

  /** Reads one PDO; returns the cursors behind it. */
  method ReadPdo(cache: Cache, devices: seq<Eeprom>, slave: nat, a0: nat, c0: nat) returns (p: Pdo, a: nat, c: nat)
    requires cache.Shaped() && cache.Agrees(devices) && slave < |devices| && Readable(devices[slave])
    requires a0 < 0x1_0000 && PdoReadable(devices[slave].bytes, a0)
    modifies cache`esislave, cache.esibuf, cache.esimap
    ensures cache.Agrees(devices) && p == PdoAt(devices[slave].bytes, a0)
    ensures a == (a0 + 2 * p.words) % 0x1_0000 && c == (c0 + p.words) % 0x1_0000
    ensures !Active(p.sm) ==> p.bits == 0
  {
    ghost var bytes := devices[slave].bytes;
    PdoBounds(bytes, a0);
    PdoParts(bytes, a0);
    hide PdoAt;
    hide PdoReadable;
    hide EntryBits;
    hide ByteAt;
    InReach(devices[slave], a0 + 3);
    hide Fetchable;
    var index := cache.SiiGetWord(devices, slave, a0);
    hide WordAt;
    hide Active;
    var e := cache.SiiGetByte(devices, slave, a0 + 2);
    var sm := cache.SiiGetByte(devices, slave, a0 + 3);
    var bits: nat := 0;
    var n: nat := e as int;
    a, c := a0 + 8, c0 + 3;
    if Active(sm) {
      bits, a, c := ReadEntries(cache, devices, slave, a, c, n);
      c := c + 1;
    } else {
      c := c + 4 * n;
      a := a + 8 * n;
      c := c + 1;
    }
    p := Pdo(index, sm, bits, 4 + 4 * n);
    assert a == a0 + 2 * p.words && c == c0 + p.words;
    a, c := a % 0x1_0000, c % 0x1_0000;
  }

  /** Reads the PDOs of one direction: 0 for outputs of the master, 1 for its inputs. Returns the
      size of all in bits. */
  method SiiPdo(
    cache: Cache, devices: seq<Eeprom>, slave: nat, table: PdoTable, t0: nat, ghost ss: seq<Section>)
      returns (Size: nat)
    requires cache.Shaped() && cache.Agrees(devices) && slave < |devices| && Readable(devices[slave]) && table.Shaped()
    requires Lists(devices[slave].bytes, 2 * ECT_SII_START, ss)
    requires var start := FindFirst(ss, 2 * ECT_SII_START, PdoCategory(t0));
             start > 0 ==> AllReadable(devices[slave].bytes, start, 1, WordAt(devices[slave].bytes, start) as int, 0)
    modifies cache`esislave, cache.esibuf, cache.esimap, table, table.Index, table.SyncM, table.BitSize, table.SMbitsize
    ensures cache.Agrees(devices) && table.Startpos == FindFirst(ss, 2 * ECT_SII_START, PdoCategory(t0))
    ensures if table.Startpos == 0 then table.Holds([]) && Size == 0
            else
              var ps := PdosFrom(devices[slave].bytes, table.Startpos, 1,
                WordAt(devices[slave].bytes, table.Startpos) as int, 0);
              table.Holds(ps) && Size == Low16(TotalBits(ps))
    // where the section is: of category 50 or 51
    ensures table.Startpos == FindFirst(ss, 0x80, if t0 == 0 then 50 else 51)
    // what the arrays of the table hold
    ensures table.Startpos > 0 ==>
      var ps := PdosFrom(devices[slave].bytes, table.Startpos, 1,
        WordAt(devices[slave].bytes, table.Startpos) as int, 0);
      && table.nPDO == |ps| <= 511 && Size == TotalBits(ps) % 0x1_0000
      && (forall k :: 0 <= k < |ps| ==>
            table.Index[k + 1] == ps[k].index && table.SyncM[k + 1] == ps[k].sm as int
            && table.BitSize[k + 1] == ps[k].bits)
      && (forall sm :: 0 <= sm < 8 && (forall k :: 0 <= k < |ps| ==> ps[k].sm as int != sm) ==>
            table.SMbitsize[sm] == 0)
    ensures table.Startpos == 0 ==> table.nPDO == 0 && Size == 0
  {
    hide Lists;
    hide PdoAt;
    hide PdosFrom;
    ghost var bytes := devices[slave].bytes;
    Size := 0;
    table.Clear();
    var t := if t0 > 1 then 1 else t0;
    table.Startpos := SiiFind(cache, devices, slave, PdoCategory(t), ss);
    if table.Startpos > 0 {
      FoundInside(bytes, ss, 2 * ECT_SII_START, PdoCategory(t));
      table.Length, Size := ReadPdos(cache, devices, slave, table, table.Startpos);
      HeldArrays(table, PdosFrom(bytes, table.Startpos, 1, WordAt(bytes, table.Startpos) as int, 0));
    }
  }

  lemma {:induction false} HeldArrays(table: PdoTable, ps: seq<Pdo>)
    requires table.Shaped() && table.Holds(ps)
    ensures table.nPDO == |ps| < EC_MAXEEPDO
    ensures forall k :: 0 <= k < |ps| ==>
      table.Index[k + 1] == ps[k].index && table.SyncM[k + 1] == ps[k].sm as int && table.BitSize[k + 1] == ps[k].bits
    ensures forall sm :: 0 <= sm < 8 && (forall k :: 0 <= k < |ps| ==> ps[k].sm as int != sm) ==>
      table.SMbitsize[sm] == 0
  {
    forall k | 0 <= k < |ps|
      ensures table.Index[k + 1] == ps[k].index && table.SyncM[k + 1] == ps[k].sm as int
              && table.BitSize[k + 1] == ps[k].bits
    {
      assert table.Entry(k, ps[k]);
    }
    forall sm | 0 <= sm < 8 && (forall k :: 0 <= k < |ps| ==> ps[k].sm as int != sm) ensures table.SMbitsize[sm] == 0 {
      OtherSm(ps, sm);
    }
  }

  /** A sync manager that no PDO names has no bits. */
  lemma {:induction false} OtherSm(ps: seq<Pdo>, sm: nat)
    requires forall k :: 0 <= k < |ps| ==> ps[k].sm as int != sm
    ensures SmBits(ps, sm) == 0
  {
    if ps != [] {
      OtherSm(ps[..|ps| - 1], sm);
    }
  }

  function PdoCategory(t: nat): uint16 {
    if t > 1 then 51 else ECT_SII_PDO + t
  }

  /** What is found lies where the cache can read it. */
  lemma {:induction false} FoundInside(bytes: seq<byte>, ss: seq<Section>, a: nat, cat: uint16)
    requires |bytes| >= EC_MAXEEPBUF && Lists(bytes, a, ss)
    ensures FindFirst(ss, a, cat) + 1 <= LAST
  {
    if ss != [] && ss[0].cat != cat {
      FoundInside(bytes, ss[1..], a + 4 + 2 * ss[0].length, cat);
    }
  }

  method ReadPdos(
    cache: Cache, devices: seq<Eeprom>, slave: nat, table: PdoTable, start: nat) returns (length: nat, Size: nat)
    requires cache.Shaped() && cache.Agrees(devices) && slave < |devices| && Readable(devices[slave]) && table.Shaped()
    requires table.Holds([]) && 0 < start && start + 1 <= LAST
    requires AllReadable(devices[slave].bytes, start, 1, WordAt(devices[slave].bytes, start) as int, 0)
    modifies cache`esislave, cache.esibuf, cache.esimap, table`nPDO, table.Index, table.SyncM, table.BitSize,
      table.SMbitsize
    ensures cache.Agrees(devices)
    ensures length == WordAt(devices[slave].bytes, start) as int
    ensures var ps := PdosFrom(devices[slave].bytes, start, 1, length, 0);
            table.Holds(ps) && Size == Low16(TotalBits(ps))
  {
    hide PdosFrom;
    hide AllReadable;
    hide TotalBits;
    hide Low16;
    var w := cache.SiiGetWord(devices, slave, start);
    length := w as int;
    Size := ReadSection(cache, devices, slave, table, start, length);
  }

  /** Reads PDOs until the word count has reached the length of the section, or the table is full. */
  method ReadSection(
    cache: Cache, devices: seq<Eeprom>, slave: nat, table: PdoTable, start: nat, length: nat) returns (Size: nat)
    requires cache.Shaped() && cache.Agrees(devices) && slave < |devices| && Readable(devices[slave]) && table.Shaped()
    requires table.Holds([]) && start + 1 <= LAST && AllReadable(devices[slave].bytes, start, 1, length, 0)
    modifies cache`esislave, cache.esibuf, cache.esimap, table`nPDO, table.Index, table.SyncM, table.BitSize,
      table.SMbitsize
    ensures cache.Agrees(devices)
    ensures var ps := PdosFrom(devices[slave].bytes, start, 1, length, 0);
            table.Holds(ps) && Size == Low16(TotalBits(ps))
  {
    hide *;
    ghost var bytes := devices[slave].bytes;
    ghost var rest := SectionBegins(devices[slave], start, length);
    ghost var ps: seq<Pdo>, whole := [], rest;
    var a: nat, c: nat := start + 2, 1;
    Size := 0;
    var more := true;
    while more
      invariant cache.Agrees(devices) && table.Holds(ps) && Size == Low16(TotalBits(ps)) && whole == ps + rest
      invariant if more then Going(bytes, start, length, a, c, ps, rest) else rest == []
      decreases |rest|, more
    {
      ghost var p;
      a, c, Size, more, p := ReadNext(cache, devices, slave, table, start, length, a, c, Size, ps, rest);
      assert whole == (ps + [p]) + rest[1..];
      ps, rest := ps + [p], rest[1..];
    }
    assert ps + [] == ps;
  }

  lemma {:induction false} SectionBegins(device: Eeprom, start: nat, length: nat) returns (rest: seq<Pdo>)
    requires Readable(device) && start + 1 <= LAST && AllReadable(device.bytes, start, 1, length, 0)
    ensures |device.bytes| >= EC_MAXEEPBUF && rest == PdosFrom(device.bytes, start, 1, length, 0)
    ensures Going(device.bytes, start, length, start + 2, 1, [], rest) && Low16(TotalBits([])) == 0
  {
    hide PdosFrom;
    hide AllReadable;
    rest := PdosFrom(device.bytes, start, 1, length, 0);
    CursorInRange(start, 1);
    hide CursorOf;
  }

  /** Reads the next PDO into the table, and decides whether there are more. */
  method ReadNext(cache: Cache, devices: seq<Eeprom>, slave: nat, table: PdoTable, start: nat, length: nat,
                  a0: nat, c0: nat, Size0: nat, ghost ps: seq<Pdo>, ghost rest: seq<Pdo>)
      returns (a: nat, c: nat, Size: nat, more: bool, ghost p: Pdo)
    requires cache.Shaped() && cache.Agrees(devices) && slave < |devices| && Readable(devices[slave])
    requires table.Shaped() && table.Holds(ps) && Size0 == Low16(TotalBits(ps))
    requires Going(devices[slave].bytes, start, length, a0, c0, ps, rest)
    modifies cache`esislave, cache.esibuf, cache.esimap
    modifies table`nPDO, table.Index, table.SyncM, table.BitSize, table.SMbitsize
    ensures cache.Agrees(devices) && table.Holds(ps + [p]) && Size == Low16(TotalBits(ps + [p]))
    ensures rest == [p] + rest[1..]
    ensures if more then Going(devices[slave].bytes, start, length, a, c, ps + [p], rest[1..]) else rest[1..] == []
  {
    ghost var rest' := GoesOn(devices[slave].bytes, start, length, a0, c0, ps, rest);
    HeldCount(table, ps);
    a, c, Size, p := RecordPdo(cache, devices, slave, table, a0, c0, Size0, ps);
    assert rest[1..] == rest';
    hide *;
    if table.nPDO >= EC_MAXEEPDO - 1 {
      // the table is full
      c := length;
    }
    more := c < length;
  }

  /** The next PDO is the one at word `c` and byte `a`; `rest` is what is left to be read. */
  ghost predicate Going(bytes: seq<byte>, start: nat, length: nat, a: nat, c: nat, ps: seq<Pdo>, rest: seq<Pdo>) {
    && |bytes| >= EC_MAXEEPBUF && |ps| < EC_MAXEEPDO - 1 && a == CursorOf(start, c)
    && AllReadable(bytes, start, c, length, |ps|) && rest == PdosFrom(bytes, start, c, length, |ps|)
  }

  lemma {:induction false} HeldCount(table: PdoTable, ps: seq<Pdo>)
    requires table.Shaped() && table.Holds(ps)
    ensures table.nPDO == |ps|
  {
  }

  /** One PDO further: it is the next of the rest, and the one behind it is read unless the section
      ends or the table is full. */
  lemma {:induction false} GoesOn(
    bytes: seq<byte>, start: nat, length: nat, a: nat, c: nat, ps: seq<Pdo>, rest: seq<Pdo>) returns (rest': seq<Pdo>)
    requires Going(bytes, start, length, a, c, ps, rest)
    ensures |bytes| >= EC_MAXEEPBUF && |ps| < EC_MAXEEPDO - 1 && a < 0x1_0000 && PdoReadable(bytes, a)
    ensures var p := PdoAt(bytes, a);
            var a', c' := Low16(a + 2 * p.words), Low16(c + p.words);
            && rest == [p] + rest'
            && if |ps| + 1 >= EC_MAXEEPDO - 1 || c' >= length then rest' == []
               else Going(bytes, start, length, a', c', ps + [p], rest')
  {
    PdosUnfold(bytes, start, c, length, |ps|);
    ReadableUnfold(bytes, start, c, length, |ps|);
    StepKeepsCursor(start, c, PdoAt(bytes, a).words);
    hide PdosFrom;
    hide AllReadable;
    hide PdoReadable;
    hide PdoAt;
    hide CursorOf;
    rest' := rest[1..];
  }

  /** Reads the PDO at byte address `a0` into the table. */
  method RecordPdo(cache: Cache, devices: seq<Eeprom>, slave: nat, table: PdoTable, a0: nat, c0: nat, Size0: nat,
                   ghost ps: seq<Pdo>)
      returns (a: nat, c: nat, Size: nat, ghost p: Pdo)
    requires cache.Shaped() && cache.Agrees(devices) && slave < |devices| && Readable(devices[slave])
    requires a0 < 0x1_0000 && PdoReadable(devices[slave].bytes, a0)
    requires table.Shaped() && table.Holds(ps) && table.nPDO == |ps| < EC_MAXEEPDO - 1 && Size0 == Low16(TotalBits(ps))
    modifies cache`esislave, cache.esibuf, cache.esimap
    modifies table`nPDO, table.Index, table.SyncM, table.BitSize, table.SMbitsize
    ensures cache.Agrees(devices) && p == PdoAt(devices[slave].bytes, a0) && table.Holds(ps + [p])
    ensures table.nPDO == |ps| + 1
    ensures a == Low16(a0 + 2 * p.words) && c == Low16(c0 + p.words) && Size == Low16(TotalBits(ps + [p]))
  {
    hide PdoAt;
    hide PdoReadable;
    hide SmBits;
    var q;
    q, a, c := ReadPdo(cache, devices, slave, a0, c0);
    p := q;
    table.Add(q, ps);
    AddMod(TotalBits(ps), q.bits);
    assert (ps + [p])[..|ps|] == ps;
    Size := (Size0 + q.bits) % 0x1_0000;
  }

  lemma {:induction false} ModShift(x: nat, q: nat)
    ensures (x + 0x1_0000 * q) % 0x1_0000 == x % 0x1_0000
  {
  }

  lemma {:induction false} DoubledMod(start: nat, z: nat)
    ensures (start + 2 * z) % 0x1_0000 == (start + 2 * (z % 0x1_0000)) % 0x1_0000
  {
    var q, r := z / 0x1_0000, z % 0x1_0000;
    assert start + 2 * z == start + 2 * r + 0x1_0000 * (2 * q);
    ModShift(start + 2 * r, 2 * q);
  }

  /** Byte cursor and word count stay in step. */
  lemma {:induction false} StepKeepsCursor(start: nat, c: nat, words: nat)
    ensures (CursorOf(start, c) + 2 * words) % 0x1_0000 == CursorOf(start, (c + words) % 0x1_0000)
  {
    AddMod(start + 2 * c, 2 * words);
    DoubledMod(start, c + words);
  }
}
