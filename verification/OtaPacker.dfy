/** Writing an OTA file: the header text and the images behind it. */
module OtaPacker {
  import opened Basics
  import opened Md5
  import opened Numbers
  import opened Ota
  import opened Utf8

  /** Capacity of the header string, in bytes. */
  const HEADER_SIZE_MAX: nat := 8192

  datatype Packed = Packed(ty: string, name: string, data: seq<byte>, md5: Digest, crc: Word32)

  /** The digest and checksum recorded for an image are those of its data, as `add` records them. */
  ghost predicate Genuine(checks: Checks, p: Packed) {
    p.md5 == checks.md5(p.data) && p.crc == checks.crc(p.data, BLOCK_SIZE)
  }

  ghost predicate AllGenuine(checks: Checks, ps: seq<Packed>) {
    forall i :: 0 <= i < |ps| ==> Genuine(checks, ps[i])
  }

  function Line(key: string, val: string): string {
    key + "=" + val
  }

  /** Lines with a newline between any two. */
  function Join(lines: seq<string>): string
    requires lines != []
  {
    if |lines| == 1 then lines[0] else lines[0] + "\n" + Join(lines[1..])
  }

  function BlockLines(p: Packed): (lines: seq<string>)
    ensures |lines| == 5
  {
    [ Line("img_type", p.ty), Line("img_name", p.name), Line("img_size", Decimal(|p.data|)),
      Line("img_md5", HexString(p.md5)), Line("img_crc", Decimal(p.crc)) ]
  }

  function Block(p: Packed): string {
    Join(BlockLines(p)) + GAP
  }

  function Blocks(ps: seq<Packed>): string {
    if ps == [] then "" else Block(ps[0]) + Blocks(ps[1..])
  }

  function FooterLines(digest: Digest): (lines: seq<string>)
    ensures |lines| == 3
  {
    [ Line("check_img", "1"), Line("bs_size", Decimal(BLOCK_SIZE)), Line("ota_img_packet_md5", HexString(digest)) ]
  }

  function Footer(digest: Digest): string {
    Join(FooterLines(digest)) + "\n"
  }

  lemma JoinedMore(l: seq<string>, first: string, rest: seq<string>)
    requires l == [first] + rest && rest != []
    ensures Join(l) == first + "\n" + Join(rest)
  {
    assert l[1..] == rest;
  }

  lemma ThreeJoined(a: string, b: string, c: string)
    ensures Join([a, b, c]) == a + "\n" + (b + "\n" + c)
  {
    JoinedMore([a, b, c], a, [b, c]);
    JoinedMore([b, c], b, [c]);
  }

  /** The text of an image's description. */
  lemma BlockIsPrinted(p: Packed)
    ensures Block(p) ==
            "img_type=" + p.ty + "\n" + ("img_name=" + p.name + "\n" + ("img_size=" + Decimal(|p.data|) + "\n"
            + ("img_md5=" + HexString(p.md5) + "\n" + ("img_crc=" + Decimal(p.crc))))) + "\n\n"
  {
    var l := BlockLines(p);
    ThreeJoined(l[2], l[3], l[4]);
    JoinedMore(l[1..], l[1], [l[2], l[3], l[4]]);
    JoinedMore(l, l[0], l[1..]);
  }

  const FIRST_LINE := "ota_version=0"

  /** The images' data, in order. */
  function PackedData(ps: seq<Packed>): seq<byte> {
    if ps == [] then [] else ps[0].data + PackedData(ps[1..])
  }

  function Header(md5: Hash, ps: seq<Packed>): string {
    FIRST_LINE + GAP + Blocks(ps) + Footer(md5(PackedData(ps)))
  }

  lemma {:induction false} PackedDataSnoc(ps: seq<Packed>, p: Packed)
    ensures PackedData(ps + [p]) == PackedData(ps) + p.data
  {
    if ps == [] {
      assert ps + [p] == [p] && [p][1..] == [];
    } else {
      assert (ps + [p])[1..] == ps[1..] + [p];
      PackedDataSnoc(ps[1..], p);
      Associative(ps[0].data, PackedData(ps[1..]), p.data);
    }
  }

  lemma {:induction false} BlocksSnoc(ps: seq<Packed>, p: Packed)
    ensures Blocks(ps + [p]) == Blocks(ps) + Block(p)
  {
    if ps == [] {
      assert ps + [p] == [p] && [p][1..] == [];
    } else {
      assert (ps + [p])[1..] == ps[1..] + [p];
      BlocksSnoc(ps[1..], p);
      Associative(Block(ps[0]), Blocks(ps[1..]), Block(p));
    }
  }

  /** The packed images in the first `k` slots. */
  /** The settings of the whole file, which end a header. */
  lemma FooterIsPrinted(digest: Digest)
    ensures Footer(digest) ==
            "check_img=1" + "\n" + ("bs_size=" + Decimal(131072) + "\n" + ("ota_img_packet_md5=" + HexString(digest))) + "\n"
  {
    var l := FooterLines(digest);
    ThreeJoined(l[0], l[1], l[2]);
    assert l == [l[0], l[1], l[2]];
  }

  /** A header: a first line, the descriptions, and the settings with the digest of all data. */
  lemma HeaderIsPrinted(md5: Hash, ps: seq<Packed>, first: string)
    requires first == "ota_version=0\n\n"
    ensures Header(md5, ps) == first + Blocks(ps) + Footer(md5(PackedData(ps)))
  {
    assert FIRST_LINE + GAP == first;
  }

  function Filled(slots: seq<Option<Packed>>, k: nat): seq<Packed>
    requires k <= |slots|
  {
    if k == 0 then []
    else if slots[k - 1].None? then Filled(slots, k - 1)
    else Filled(slots, k - 1) + [slots[k - 1].value]
  }

  /** The output: header text, then whatever was there, then the images, then whatever was there. */
  function Image(was: seq<byte>, header: seq<byte>, payload: seq<byte>): seq<byte>
    requires |header| <= HEADER_SIZE && HEADER_SIZE + |payload| <= |was|
  {
    Splice(Splice(was, 0, header), HEADER_SIZE, payload)
  }

  /** Copies `data` behind what has been copied already. */
  method CopyBehind(out: array<byte>, offset: nat, data: seq<byte>, ghost was: seq<byte>, ghost done: seq<byte>)
    requires |was| == out.Length && offset == HEADER_SIZE + |done| && offset + |data| <= out.Length
    requires out[..] == Splice(was, HEADER_SIZE, done)
    modifies out
    ensures out[..] == Splice(was, HEADER_SIZE, done + data)
  {
    SpliceMore(was, HEADER_SIZE, done, data);
    CopyInto(out, offset, data);
  }

  lemma SumWraps(a: nat, b: nat)
    ensures (a % TWO_32 + b) % TWO_32 == (a + b) % TWO_32
  {
    assert a == a / TWO_32 * TWO_32 + a % TWO_32;
    assert (a + b) / TWO_32 == a / TWO_32 + (a % TWO_32 + b) / TWO_32;
  }

  class Packer {
    const checks: Checks
    var n: nat
    var images: seq<Option<Packed>>

    ghost predicate Valid()
      reads this
    {
      && |images| == MAX_IMAGES && n <= MAX_IMAGES
      && (forall i :: 0 <= i < MAX_IMAGES ==> (images[i].Some? <==> i < n))
      && forall i :: 0 <= i < n ==> Genuine(checks, images[i].value)
    }

    /** The images added so far, in order. */
    ghost function Added(): seq<Packed>
      reads this
      requires Valid()
    {
      Filled(images, MAX_IMAGES)
    }

    constructor (checks: Checks)
      ensures Valid() && Added() == [] && n == 0 && this.checks == checks
    {
      this.checks := checks;
      n := 0;
      images := seq(MAX_IMAGES, _ => None);
      new;
      FilledEmpty(images, MAX_IMAGES);
    }

    /** Adding a ninth image would index past the slots. */
    method Add(ty: string, name: string, data: seq<byte>)
      requires Valid() && n < 8
      modifies this
      ensures Valid() && n == old(n) + 1
      ensures Added() == old(Added()) + [Packed(ty, name, data, checks.md5(data), checks.crc(data, BLOCK_SIZE))]
    {
      var p := Packed(ty, name, data, checks.md5(data), checks.crc(data, BLOCK_SIZE));
      FilledSet(images, n, p, MAX_IMAGES);
      images := images[n := Some(p)];
      n := n + 1;
    }

    /** There are never more than eight images, each recorded with the digest and checksum of its data. */
    lemma AddedAreGenuine()
      requires Valid()
      ensures AllGenuine(checks, Added()) && |Added()| <= 8
    {
      FilledGenuine(checks, images, MAX_IMAGES);
    }

    /** The size of the file, as far as a machine word can say. */
    method OutputSize() returns (size: nat)
      requires Valid()
      ensures size == (131072 + |PackedData(Added())|) % 0x1_0000_0000
    {
      size := HEADER_SIZE;
      for i := 0 to |images|
        invariant size == (HEADER_SIZE + |PackedData(Filled(images, i))|) % TWO_32
      {
        if images[i].Some? {
          PackedDataSnoc(Filled(images, i), images[i].value);
          SumWraps(HEADER_SIZE + |PackedData(Filled(images, i))|, |images[i].value.data|);
          size := (size + |images[i].value.data|) % TWO_32;
        }
      }
    }

    /** The header text, and whether it fits its string; the program stops if it does not. */
    method BuildHeader() returns (header: string, fits: bool)
      requires Valid()
      ensures header == Header(checks.md5, Added())
      ensures fits <==> ByteLen(header) <= 8192
    {
      var start := FIRST_LINE + GAP;
      header := start;
      var hashed: seq<byte> := [];
      for i := 0 to |images|
        invariant header == start + Blocks(Filled(images, i))
        invariant hashed == PackedData(Filled(images, i))
      {
        if images[i].Some? {
          var p := images[i].value;
          BlocksSnoc(Filled(images, i), p);
          PackedDataSnoc(Filled(images, i), p);
          Associative(start, Blocks(Filled(images, i)), Block(p));
          header := header + Block(p);
          hashed := hashed + p.data;
        }
      }
      header := header + Footer(checks.md5(hashed));
      fits := ByteLen(header) <= HEADER_SIZE_MAX;
    }

    method CopyImages(out: array<byte>)
      requires Valid() && HEADER_SIZE + |PackedData(Added())| <= out.Length
      modifies out
      ensures out[..] == Splice(old(out[..]), HEADER_SIZE, PackedData(Added()))
    {
      ghost var was := out[..];
      var offset: nat := HEADER_SIZE;
      for i := 0 to |images|
        invariant offset == HEADER_SIZE + |PackedData(Filled(images, i))| <= out.Length
        invariant out[..] == Splice(was, HEADER_SIZE, PackedData(Filled(images, i)))
      {
        if images[i].Some? {
          var data := images[i].value.data;
          PackedDataSnoc(Filled(images, i), images[i].value);
          PackedDataMonotone(images, i + 1, |images|);
          CopyBehind(out, offset, data, was, PackedData(Filled(images, i)));
          offset := offset + |data|;
        }
      }
    }

    /** Writes the header and the images into `out`, and leaves every other byte as it was. */
    method Pack(out: array<byte>)
      requires Valid()
      requires ByteLen(Header(checks.md5, Added())) <= HEADER_SIZE_MAX
      requires HEADER_SIZE + |PackedData(Added())| <= out.Length
      modifies out
      ensures out[131072..131072 + |PackedData(Added())|] == PackedData(Added())
      ensures out[..] == Image(old(out[..]), Encode(Header(checks.md5, Added())), PackedData(Added()))
    {
      var header, fits := BuildHeader();
      CopyInto(out, 0, Encode(header));
      CopyImages(out);
    }
  }

  lemma {:induction false} FilledEmpty(slots: seq<Option<Packed>>, k: nat)
    requires k <= |slots| && forall i :: 0 <= i < k ==> slots[i].None?
    ensures Filled(slots, k) == []
  {
    if k > 0 {
      FilledEmpty(slots, k - 1);
    }
  }

  lemma {:induction false} FilledGenuine(checks: Checks, slots: seq<Option<Packed>>, k: nat)
    requires k <= |slots| && forall i :: 0 <= i < k && slots[i].Some? ==> Genuine(checks, slots[i].value)
    ensures AllGenuine(checks, Filled(slots, k)) && |Filled(slots, k)| <= k
  {
    if k > 0 {
      FilledGenuine(checks, slots, k - 1);
    }
  }

  /** Filling the first empty slot appends to the list. */
  lemma {:induction false} FilledSet(slots: seq<Option<Packed>>, n: nat, p: Packed, k: nat)
    requires n < |slots| && k <= |slots| && forall i :: n <= i < |slots| ==> slots[i].None?
    ensures Filled(slots[n := Some(p)], k) == if k <= n then Filled(slots, k) else Filled(slots, k) + [p]
  {
    if k > 0 {
      FilledSet(slots, n, p, k - 1);
    }
  }

  lemma {:induction false} PackedDataMonotone(slots: seq<Option<Packed>>, i: nat, k: nat)
    requires i <= k <= |slots|
    ensures |PackedData(Filled(slots, i))| <= |PackedData(Filled(slots, k))|
    decreases k
  {
    if i < k {
      PackedDataMonotone(slots, i, k - 1);
      if slots[k - 1].Some? {
        PackedDataSnoc(Filled(slots, k - 1), slots[k - 1].value);
      }
    }
  }
}
