/** Bytes written out: what the encoders make of particular values. The round trips leave a format free to
    change on both sides at once; these fix it. */
module WireFormat {
  import opened Bytes
  import opened Coding
  import opened BlockFormat
  import opened Format
  import opened Files
  import LogFile
  import E = VersionEdits
  import F = FilterBlocks
  import P = Pipeline

  /** Low groups first, seven bits each, the top bit on all but the last. */
  lemma VarintBytes()
    ensures Varint(0) == [0] && Varint(127) == [127] && Varint(128) == [0x80, 0x01] && Varint(300) == [0xac, 0x02]
    ensures Varint(0xffff_ffff) == [0xff, 0xff, 0xff, 0xff, 0x0f]
  {
    assert Varint(0xffff_ffff / 128) == [0xff, 0xff, 0xff, 0x0f] by {
      assert Varint(0xffff_ffff / 128 / 128) == [0xff, 0xff, 0x0f];
    }
  }

  /** Low byte first. */
  lemma FixedBytes()
    ensures Fixed32(0x0403_0201) == [1, 2, 3, 4]
    ensures Fixed64(0x0807_0605_0403_0201) == [1, 2, 3, 4, 5, 6, 7, 8]
  {
  }

  /** Key length plus nine, key, stray byte, number and type, value length plus one, value, stray byte. */
  lemma MemEntryLayout()
    ensures MemEntryBytes(MemEntry([97], [98], 5, true), 0xee, 0xff) ==
            [10, 97, 0xee, 1, 5, 0, 0, 0, 0, 0, 0, 2, 98, 0xff]
  {
  }

  /** Shared, non-shared and value lengths, then the key's end and the value. */
  lemma BlockEntryLayout()
    ensures EntryBytes(1, Entry([97, 98, 99], [120])) == [1, 2, 1, 98, 99, 120]
  {
  }

  /** Entries, restart offsets, restart count. */
  lemma BlockLayout()
    ensures BlockBytes([7], [0, 9]) == [7, 0, 0, 0, 0, 9, 0, 0, 0, 2, 0, 0, 0]
  {
    var rs: seq<uint32> := [0, 9];
    assert rs[..1] == [0] && rs[..1][..0] == [];
    assert FixedArray(rs[..1]) == Fixed32(0);
    assert FixedArray(rs) == Fixed32(0) + Fixed32(9);
  }

  /** Contents, type 0, checksum 0. */
  lemma RawBlockLayout()
    ensures RawBlock([1, 2]) == [1, 2, 0, 0, 0, 0, 0]
  {
  }

  /** Metaindex handle, index handle, padding to forty bytes, magic number. */
  lemma FooterLayout()
    ensures FooterBytes(Footer(BlockHandle(1, 2), BlockHandle(3, 4))) ==
            [1, 2, 3, 4] + seq(36, i => 0) + [0x57, 0xfb, 0x80, 0x8b, 0x24, 0x75, 0x47, 0xdb]
  {
    assert HandleBytes(BlockHandle(1, 2)) == [1, 2] && HandleBytes(BlockHandle(3, 4)) == [3, 4];
    assert Fixed32(MAGIC_LOW) == [0x57, 0xfb, 0x80, 0x8b];
    assert Fixed32(MAGIC_HIGH) == [0x24, 0x75, 0x47, 0xdb];
  }

  /** Eight bytes of length, then the record. */
  lemma LogRecordLayout()
    ensures LogFile.Record([9, 8, 7]) == [3, 0, 0, 0, 0, 0, 0, 0, 9, 8, 7]
  {
  }

  lemma SmallVarint(n: nat)
    requires n < 128
    ensures Varint(n) == [n]
  {
  }

  /** Four of the five tags, and what follows them. */
  lemma EditItemLayout()
    ensures E.ItemBytes(E.PrevLogNumber(1)) == [9, 1]
    ensures E.ItemBytes(E.NextFileNumber(2)) == [3, 2]
    ensures E.ItemBytes(E.LastSequence(5)) == [4, 5]
    ensures E.ItemBytes(E.DeletedFile(1, 8)) == [6, 1, 8]
  {
  }

  /** The fifth: level, number, size, smallest entry, largest entry. */
  lemma NewFileLayout(smallest: MemEntry, largest: MemEntry, pads: E.Pads)
    requires E.EntryFits(smallest) && E.EntryFits(largest)
    ensures E.ItemBytes(E.NewFile(2, FileMetaData(10, 11, smallest, largest), pads)) ==
            [7, 2, 10, 11] + E.PrefixedEntry(smallest, pads.smallestKey, pads.smallestValue)
            + E.PrefixedEntry(largest, pads.largestKey, pads.largestValue)
  {
    hide E.PrefixedEntry, E.EntryFits, Varint;
    SmallVarint(7);
    SmallVarint(2);
    SmallVarint(10);
    SmallVarint(11);
    assert Varint(7) + Varint(2) + Varint(10) + Varint(11) == [7, 2, 10, 11];
  }

  /** The order of an edit's parts. */
  lemma EditLayout(file: FileMetaData, pads: E.Pads)
    ensures E.Items(E.Edit(Some(1), Some(2), Some(3), [(4, 5)], [(6, file)]), [pads]) ==
            [E.PrevLogNumber(1), E.NextFileNumber(2), E.LastSequence(3), E.DeletedFile(4, 5), E.NewFile(6, file, pads)]
  {
  }

  /** Filters, their offsets, where the offsets begin, the base. */
  lemma FilterBlockLayout()
    ensures var policy := F.Policy(keys => [0xaa, 0xbb], (key, filter) => true);
            |F.FilterData(policy, [[[97]]])| == 2
            && F.FinishedFilters(policy, [[[97]]]) == [0xaa, 0xbb, 0, 0, 0, 0, 2, 0, 0, 0, 11]
  {
    var policy := F.Policy(keys => [0xaa, 0xbb], (key, filter) => true);
    var groups: seq<seq<bytes>> := [[[97]]];
    assert F.Filters(policy, groups) == [[0xaa, 0xbb]];
    assert groups[..0] == [] && F.Filters(policy, []) == [];
    assert F.Offsets(policy, groups) == [0];
    assert [0][..0] == [];
    assert FixedArray([0]) == Fixed32(0);
  }

  /** Characters are signed, and the hash is taken modulo 2^64. */
  lemma HashValues()
    ensures P.StrHash([97], 37) == 3626 && P.StrHash([97, 98], 37) == 137788
    ensures P.StrHash([200], 37) == 0x1_0000_0000_0000_0000 - 2035
  {
    var one: bytes, two: bytes, high: bytes := [97], [97, 98], [200];
    assert one[..0] == [] && two[..1] == one && high[..0] == [];
    assert P.StrHash([], 37) == 1;
    assert P.StrHash(one, 37) == 3626;
  }
}
