/** The INIT command: a TLV stream written in place, with a 4-byte zero gap after each record. */
module WmiInit {
  import opened Bytes
  import opened Common
  import Tlv

  const CMD_INIT: u32 := 1
  const TAG_ARRAY_STRUCT: u16 := 18
  const TAG_INIT_CMD: u16 := 74
  const TAG_RESOURCE_CONFIG: u16 := 75
  const CONFIG_WORDS: nat := 44
  const INIT_LEN: nat := 232

  /** Six ABI version words and the number of host memory chunks. */
  const INIT_WORDS: seq<u32> := [0x0100_0000, 53, 0x5F41_4351, 0x4C4D, 0, 0, 0]

  /** The records of the command; each gap reads as an empty record with tag 0. */
  function InitRecords(init: seq<byte>, resources: seq<byte>): seq<Tlv.Rec> {
    [Tlv.Rec(TAG_INIT_CMD, init), Tlv.Rec(0, []),
     Tlv.Rec(TAG_RESOURCE_CONFIG, resources), Tlv.Rec(0, []),
     Tlv.Rec(TAG_ARRAY_STRUCT, []), Tlv.Rec(0, [])]
  }

  function InitPayload(config: seq<u32>): (s: seq<byte>)
    requires |config| == CONFIG_WORDS
  {
    Le32(CMD_INIT)
    + (Le16(28) + Le16(TAG_INIT_CMD) + Words(INIT_WORDS) + Zeros(4))
    + (Le16(176) + Le16(TAG_RESOURCE_CONFIG) + Words(config) + Zeros(4))
    + (Le16(0) + Le16(TAG_ARRAY_STRUCT) + Zeros(4))
  }

  /** The gaps do not confuse the parser: it recovers both structs, for every configuration. */
  lemma InitParses(config: seq<u32>)
    requires |config| == CONFIG_WORDS
    ensures |InitPayload(config)| == INIT_LEN
    ensures var recs := Tlv.Parse(InitPayload(config)[4..]);
            && recs.Some?
            && Tlv.LastOf(recs.value, 74) == Some(Words(INIT_WORDS))
            && Tlv.LastOf(recs.value, 75) == Some(Words(config))
            && Tlv.LastOf(recs.value, 18) == Some([])
  {
    hide Words, Le32, Tlv.LastOf, Tlv.Tiles, Tlv.Parse, InitPayload, InitRecords;
    var init, resources := Words(INIT_WORDS), Words(config);
    InitBytes(config, init, resources);
    InitTiles(init, resources);
    Tlv.ParseIffTiles(InitPayload(config)[4..], InitRecords(init, resources));
    InitLast(init, resources);
  }

  /** What the first struct says: ABI 1.0 revision 53, the name space "QCA_ML", and no host memory. */
  lemma InitIdentifies()
    ensures var s := Words(INIT_WORDS);
            && |s| == 28 && Get32(s, 0) == 1 * 0x100_0000 + 0 && Get32(s, 4) == 53
            && s[8..24] == [81, 67, 65, 95, 77, 76, 0, 0, 0, 0, 0, 0, 0, 0, 0, 0]
            && Get32(s, 24) == 0
  {
    hide Words, Get32, Le32;
    var ws := INIT_WORDS;
    NameSpace();
    WordsRead(ws, 0);
    WordsRead(ws, 1);
    WordsRead(ws, 2);
    WordsRead(ws, 3);
    WordsRead(ws, 4);
    WordsRead(ws, 5);
    WordsRead(ws, 6);
    var s := Words(ws);
    assert s[8..24] == s[8..12] + s[12..16] + s[16..20] + s[20..24];
  }

  lemma NameSpace()
    ensures Le32(0x5F41_4351) == [81, 67, 65, 95] && Le32(0x4C4D) == [77, 76, 0, 0] && Le32(0) == [0, 0, 0, 0]
  {
  }

  lemma InitStarts(config: seq<u32>)
    requires |config| == CONFIG_WORDS
    ensures |InitPayload(config)| >= 4 && Get32(InitPayload(config), 0) == 1
  {
    hide Words, Le16, Get32;
    assert InitPayload(config)[0..4] == Le32(CMD_INIT);
    Get32OfLe32(InitPayload(config), 0, CMD_INIT);
  }

  function Stream(init: seq<byte>, resources: seq<byte>): seq<byte> {
    (Le16(28) + Le16(TAG_INIT_CMD) + init + Zeros(4))
    + (Le16(176) + Le16(TAG_RESOURCE_CONFIG) + resources + Zeros(4))
    + (Le16(0) + Le16(TAG_ARRAY_STRUCT) + Zeros(4))
  }

  lemma InitBytes(config: seq<u32>, init: seq<byte>, resources: seq<byte>)
    requires |config| == CONFIG_WORDS && init == Words(INIT_WORDS) && resources == Words(config)
    ensures |InitPayload(config)| == INIT_LEN && InitPayload(config)[4..] == Stream(init, resources)
  {
    hide Words, Le32, Le16;
  }

  lemma InitTiles(init: seq<byte>, resources: seq<byte>)
    requires |init| == 28 && |resources| == 176
    ensures Tlv.Tiles(Stream(init, resources), InitRecords(init, resources))
  {
    hide Tlv.Encode;
    var rs, gap := InitRecords(init, resources), Tlv.Rec(0, []);
    assert Tlv.EncodeRec(gap) == Zeros(4);
    Tlv.EncodeCons(gap, []);
    Tlv.EncodeCons(rs[4], [gap]);
    Tlv.EncodeCons(gap, [rs[4]] + [gap]);
    Tlv.EncodeCons(rs[2], [gap] + ([rs[4]] + [gap]));
    Tlv.EncodeCons(gap, [rs[2]] + ([gap] + ([rs[4]] + [gap])));
    Tlv.EncodeCons(rs[0], [gap] + ([rs[2]] + ([gap] + ([rs[4]] + [gap]))));
    assert [gap] + [] == [gap];
    assert rs == [rs[0]] + ([gap] + ([rs[2]] + ([gap] + ([rs[4]] + [gap]))));
    StreamAssociates(init, resources);
  }

  lemma StreamAssociates(init: seq<byte>, resources: seq<byte>)
    requires |init| == 28 && |resources| == 176
    ensures var rs, gap := InitRecords(init, resources), Zeros(4);
            Stream(init, resources) ==
            Tlv.EncodeRec(rs[0]) + (gap + (Tlv.EncodeRec(rs[2]) + (gap + (Tlv.EncodeRec(rs[4]) + (gap + Tlv.Encode([]))))))
  {
    hide Le16;
    assert Tlv.EncodeRec(InitRecords(init, resources)[4]) == Le16(0) + Le16(TAG_ARRAY_STRUCT);
  }

  lemma InitLast(init: seq<byte>, resources: seq<byte>)
    ensures Tlv.LastOf(InitRecords(init, resources), TAG_INIT_CMD) == Some(init)
    ensures Tlv.LastOf(InitRecords(init, resources), TAG_RESOURCE_CONFIG) == Some(resources)
    ensures Tlv.LastOf(InitRecords(init, resources), TAG_ARRAY_STRUCT) == Some([])
  {
    hide Tlv.LastOf;
    Tlv.LastOfUnique(InitRecords(init, resources), 4);
    Tlv.LastOfUnique(InitRecords(init, resources), 0);
    Tlv.LastOfUnique(InitRecords(init, resources), 2);
  }

  // ------------------------------------------------------------------- writing it in place

  /** The buffer holds `done`, and zeros after it. */
  ghost predicate Laid(buf: array<byte>, done: seq<byte>)
    reads buf
  {
    |done| <= buf.Length && buf[..] == done + Zeros(buf.Length - |done|)
  }

  method WrLe32(buf: array<byte>, off: nat, w: u32, ghost done: seq<byte>)
    requires Laid(buf, done) && |done| == off && off + 4 <= buf.Length
    modifies buf
    ensures Laid(buf, done + Le32(w))
  {
    buf[off] := w % 0x100;
    buf[off + 1] := w / 0x100 % 0x100;
    buf[off + 2] := w / 0x100 / 0x100 % 0x100;
    buf[off + 3] := w / 0x100 / 0x100 / 0x100;
    assert buf[..] == done + Le32(w) + Zeros(buf.Length - off - 4);
  }

  method WrTlvHdr(buf: array<byte>, off: nat, len: u16, tag: u16, ghost done: seq<byte>)
    requires Laid(buf, done) && |done| == off && off + 4 <= buf.Length
    modifies buf
    ensures Laid(buf, done + (Le16(len) + Le16(tag)))
  {
    buf[off] := len % 0x100;
    buf[off + 1] := len / 0x100;
    buf[off + 2] := tag % 0x100;
    buf[off + 3] := tag / 0x100;
    assert buf[..] == done + (Le16(len) + Le16(tag)) + Zeros(buf.Length - off - 4);
  }

  /** The cursor steps over bytes that stay zero. */
  lemma SkipGap(buf: array<byte>, done: seq<byte>, gap: nat)
    requires Laid(buf, done) && |done| + gap <= buf.Length
    ensures Laid(buf, done + Zeros(gap))
  {
    assert done + Zeros(gap) + Zeros(buf.Length - |done| - gap) == done + Zeros(buf.Length - |done|);
  }

  method WrWords(buf: array<byte>, off: nat, ws: seq<u32>, ghost done: seq<byte>)
    requires Laid(buf, done) && |done| == off && off + 4 * |ws| <= buf.Length
    modifies buf
    ensures Laid(buf, done + Words(ws))
  {
    assert done + Words(ws[..0]) == done;
    for i := 0 to |ws|
      invariant Laid(buf, done + Words(ws[..i]))
    {
      WrLe32(buf, off + 4 * i, ws[i], done + Words(ws[..i]));
      assert ws[..i + 1][..i] == ws[..i];
      assert done + Words(ws[..i]) + Le32(ws[i]) == done + Words(ws[..i + 1]);
    }
    assert ws[..|ws|] == ws;
  }

  /** Builds the command in a zeroed buffer. */
  method BuildInit(config: seq<u32>) returns (buf: array<byte>)
    requires |config| == CONFIG_WORDS
    ensures fresh(buf) && buf[..] == InitPayload(config)
  {
    hide Laid, Words, Le32, Le16;
    buf := new byte[INIT_LEN](_ => 0);
    LaidEmpty(buf);
    WrLe32(buf, 0, CMD_INIT, []);
    ghost var d := [] + Le32(CMD_INIT);
    var p := 4;
    WrTlvHdr(buf, p, 28, TAG_INIT_CMD, d);
    d := d + (Le16(28) + Le16(TAG_INIT_CMD));
    WrWords(buf, p + 4, INIT_WORDS, d);
    d := d + Words(INIT_WORDS);
    SkipGap(buf, d, 4);
    d := d + Zeros(4);
    p := p + 8 + 28;
    WrTlvHdr(buf, p, 176, TAG_RESOURCE_CONFIG, d);
    d := d + (Le16(176) + Le16(TAG_RESOURCE_CONFIG));
    WrWords(buf, p + 4, config, d);
    d := d + Words(config);
    SkipGap(buf, d, 4);
    d := d + Zeros(4);
    p := p + 8 + 176;
    WrTlvHdr(buf, p, 0, TAG_ARRAY_STRUCT, d);
    d := d + (Le16(0) + Le16(TAG_ARRAY_STRUCT));
    SkipGap(buf, d, 4);
    d := d + Zeros(4);
    p := p + 8;
    assert p == INIT_LEN;
    LaidWhole(buf, d);
    assert d == InitPayload(config);
  }

  lemma LaidEmpty(buf: array<byte>)
    requires forall i | 0 <= i < buf.Length :: buf[i] == 0
    ensures Laid(buf, [])
  {
  }

  lemma LaidWhole(buf: array<byte>, done: seq<byte>)
    requires Laid(buf, done) && |done| == buf.Length
    ensures buf[..] == done
  {
  }
}
