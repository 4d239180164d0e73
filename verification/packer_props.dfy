/** What the packing loop guarantees about the table it builds: one entry per source
    that opens, in item order, offsets that are running sums of packed sizes, and each
    item's payload at its entry's offset. */
module PackerProps {
  import opened Results
  import opened ByteSeq
  import opened PakTypes
  import opened Layout
  import opened Primitives
  import opened Packer

  /** Sum of the packed sizes of `es`. */
  function SumPacked(es: seq<PakFileTableEntry>): nat {
    if |es| == 0 then 0 else SumPacked(es[..|es| - 1]) + es[|es| - 1].packedSize
  }

  lemma {:induction false} OpenedPathsPrefix(items: seq<PakFileItem>, fs: FileSystem, n: nat)
    requires n <= |items|
    ensures OpenedPaths(items[..n], fs) <= OpenedPaths(items, fs)
    decreases |items|
  {
    if n < |items| {
      var last := |items| - 1;
      assert items[..last][..n] == items[..n];
      OpenedPathsPrefix(items[..last], fs, n);
    } else {
      assert items[..n] == items;
    }
  }

  /** The opened item `i` holds position `|OpenedPaths(items[..i])|` among the opened ones. */
  lemma OpenedPathAt(items: seq<PakFileItem>, fs: FileSystem, i: nat)
    requires i < |items| && items[i].path in fs
    ensures |OpenedPaths(items[..i], fs)| < |OpenedPaths(items, fs)|
    ensures OpenedPaths(items, fs)[|OpenedPaths(items[..i], fs)|] == items[i].packedPath
  {
    assert items[..i + 1][..i] == items[..i];
    assert OpenedPaths(items[..i + 1], fs) == OpenedPaths(items[..i], fs) + [items[i].packedPath];
    OpenedPathsPrefix(items, fs, i + 1);
  }

  /** Stopping the loop early yields a prefix of the entries and of the data. */
  lemma {:induction false} CollectPrefix(p: Primitives, key: Bytes, items: seq<PakFileItem>, fs: FileSystem,
                                         ct: nat, nonces: seq<Bytes>, n: nat)
    requires |nonces| >= |items| && PackablePaths(items, fs) && n <= |items|
    requires CollectEntries(p, key, items, fs, ct, nonces).Ok?
    ensures PackablePaths(items[..n], fs)
    ensures CollectEntries(p, key, items[..n], fs, ct, nonces).Ok?
    ensures CollectEntries(p, key, items[..n], fs, ct, nonces).value.entries
         <= CollectEntries(p, key, items, fs, ct, nonces).value.entries
    ensures CollectEntries(p, key, items[..n], fs, ct, nonces).value.data
         <= CollectEntries(p, key, items, fs, ct, nonces).value.data
    decreases |items|
  {
    PackablePrefix(items, fs, n);
    if n == |items| {
      assert items[..n] == items;
    } else {
      var last := |items| - 1;
      PackablePrefix(items, fs, last);
      assert items[..last][..n] == items[..n];
      CollectPrefix(p, key, items[..last], fs, ct, nonces, n);
    }
  }

  /** Entry `k` carries the `k`-th opened item's packed path: input order is kept. */
  lemma {:induction false} CollectPaths(p: Primitives, key: Bytes, items: seq<PakFileItem>, fs: FileSystem,
                                        ct: nat, nonces: seq<Bytes>)
    requires |nonces| >= |items| && PackablePaths(items, fs)
    requires CollectEntries(p, key, items, fs, ct, nonces).Ok?
    ensures var es := CollectEntries(p, key, items, fs, ct, nonces).value.entries;
            forall k :: 0 <= k < |es| ==> PathOf(es[k]) == OpenedPaths(items, fs)[k]
    decreases |items|
  {
    if |items| > 0 {
      var last := |items| - 1;
      PackablePrefix(items, fs, last);
      CollectPaths(p, key, items[..last], fs, ct, nonces);
    }
  }

  /** Only items that ask for encryption produce encrypted entries. */
  lemma {:induction false} CollectEncryption(p: Primitives, key: Bytes, items: seq<PakFileItem>, fs: FileSystem,
                                             ct: nat, nonces: seq<Bytes>)
    requires |nonces| >= |items| && PackablePaths(items, fs)
    requires CollectEntries(p, key, items, fs, ct, nonces).Ok?
    ensures var es := CollectEntries(p, key, items, fs, ct, nonces).value.entries;
            forall k :: 0 <= k < |es| && es[k].encrypted ==> AnyEncrypted(items)
    decreases |items|
  {
    if |items| > 0 {
      var last := |items| - 1;
      PackablePrefix(items, fs, last);
      CollectEncryption(p, key, items[..last], fs, ct, nonces);
      var es' := CollectEntries(p, key, items[..last], fs, ct, nonces).value.entries;
      forall k | 0 <= k < |es'| && es'[k].encrypted
        ensures AnyEncrypted(items)
      {
        var j :| 0 <= j < last && items[..last][j].encrypted;
        assert items[j] == items[..last][j];
      }
    }
  }

  /** With the data buffer under 4 GiB (so no `unsigned int` cast truncates), each
      entry's pre-rebase offset is the sum of the earlier packed sizes, and the buffer
      is exactly as long as all packed sizes together. */
  lemma {:induction false} CollectOffsets(p: Primitives, key: Bytes, items: seq<PakFileItem>, fs: FileSystem,
                                          ct: nat, nonces: seq<Bytes>)
    requires |nonces| >= |items| && PackablePaths(items, fs)
    requires CollectEntries(p, key, items, fs, ct, nonces).Ok?
    requires |CollectEntries(p, key, items, fs, ct, nonces).value.data| < U32Modulus
    ensures var t := CollectEntries(p, key, items, fs, ct, nonces).value;
            && SumPacked(t.entries) == |t.data|
            && forall k :: 0 <= k < |t.entries| ==> t.entries[k].offset == SumPacked(t.entries[..k])
    decreases |items|
  {
    if |items| > 0 {
      var last := |items| - 1;
      PackablePrefix(items, fs, last);
      var t := CollectEntries(p, key, items, fs, ct, nonces).value;
      var t' := CollectEntries(p, key, items[..last], fs, ct, nonces).value;
      CollectOffsets(p, key, items[..last], fs, ct, nonces);
      if items[last].path in fs {
        var es := t.entries;
        assert es[..|t'.entries|] == t'.entries;
        forall k | 0 <= k < |es|
          ensures es[k].offset == SumPacked(es[..k])
        {
          if k < |t'.entries| {
            assert es[..k] == t'.entries[..k];
          }
        }
      }
    }
  }

  /** One step of the loop for an item whose source opens. */
  lemma CollectLast(p: Primitives, key: Bytes, items: seq<PakFileItem>, fs: FileSystem,
                    ct: nat, nonces: seq<Bytes>)
    requires |nonces| >= |items| && PackablePaths(items, fs)
    requires CollectEntries(p, key, items, fs, ct, nonces).Ok?
    requires |items| > 0 && items[|items| - 1].path in fs
    ensures PackablePaths(items[..|items| - 1], fs)
    ensures CollectEntries(p, key, items[..|items| - 1], fs, ct, nonces).Ok?
    ensures var last := |items| - 1;
            var t := CollectEntries(p, key, items, fs, ct, nonces).value;
            var t' := CollectEntries(p, key, items[..last], fs, ct, nonces).value;
            var packed := PackItem(p, key, nonces[last], items[last], fs[items[last].path], ct);
            && packed.Ok?
            && t.entries == t'.entries + [packed.value.entry.(offset := U32(|t'.data|))]
            && t.data == t'.data + packed.value.payload
  {
    PackablePrefix(items, fs, |items| - 1);
  }

  /** A table that extends `before` by one entry and payload keeps them in place in
      every table it is a prefix of. */
  lemma PlacedInExtension(before: Table, step: Table, after: Table, e: PakFileTableEntry, payload: Bytes)
    requires step.entries == before.entries + [e] && step.data == before.data + payload
    requires step.entries <= after.entries && step.data <= after.data
    ensures |before.entries| < |after.entries| && after.entries[|before.entries|] == e
    ensures |before.data| + |payload| <= |after.data|
    ensures after.data[|before.data|..|before.data| + |payload|] == payload
  {
    assert after.entries[|before.entries|] == step.entries[|before.entries|];
    assert after.data[|before.data|..|before.data| + |payload|] == step.data[|before.data|..|before.data| + |payload|];
  }

  /** Where item `i`'s payload lands: if its source opens, entry number
      `|OpenedPaths(items[..i])|` is the entry `PackItem` made for it, at the offset the
      loop reached before it, and the data holds its payload there. */
  lemma CollectPlaces(p: Primitives, key: Bytes, items: seq<PakFileItem>, fs: FileSystem,
                      ct: nat, nonces: seq<Bytes>, i: nat)
    requires |nonces| >= |items| && PackablePaths(items, fs)
    requires CollectEntries(p, key, items, fs, ct, nonces).Ok?
    requires i < |items| && items[i].path in fs
    ensures PackablePaths(items[..i], fs)
    ensures CollectEntries(p, key, items[..i], fs, ct, nonces).Ok?
    ensures var t := CollectEntries(p, key, items, fs, ct, nonces).value;
            var start := |CollectEntries(p, key, items[..i], fs, ct, nonces).value.data|;
            var k := |OpenedPaths(items[..i], fs)|;
            var packed := PackItem(p, key, nonces[i], items[i], fs[items[i].path], ct);
            && packed.Ok?
            && k < |t.entries|
            && t.entries[k] == packed.value.entry.(offset := U32(start))
            && start + |packed.value.payload| <= |t.data|
            && t.data[start..start + |packed.value.payload|] == packed.value.payload
  {
    var upto := items[..i + 1];
    assert upto[..i] == items[..i];
    assert upto[i] == items[i];
    CollectPrefix(p, key, items, fs, ct, nonces, i + 1);
    CollectLast(p, key, upto, fs, ct, nonces);
    var packed := PackItem(p, key, nonces[i], items[i], fs[items[i].path], ct).value;
    var ti := CollectEntries(p, key, items[..i], fs, ct, nonces).value;
    PlacedInExtension(ti, CollectEntries(p, key, upto, fs, ct, nonces).value,
                      CollectEntries(p, key, items, fs, ct, nonces).value,
                      packed.entry.(offset := U32(|ti.data|)), packed.payload);
  }

  /** The compression type is consulted only when an opened item asks for compression:
      with none, an unknown type is never reported and packing succeeds. */
  lemma UncompressedRequestPacks(p: Primitives, session: Session, items: seq<PakFileItem>, fs: FileSystem,
                                 targetPath: string, ct: nat, salt: Bytes, nonces: seq<Bytes>)
    requires |salt| == SaltBytes && |nonces| == |items| && PackablePaths(items, fs)
    requires forall i :: 0 <= i < |items| && items[i].path in fs ==> !items[i].compressed
    ensures CreatePakFile(p, session, items, fs, targetPath, ct, salt, nonces).Ok?
        ==> CreatePakFile(p, session, items, fs, targetPath, ct, salt, nonces).value.0
  {
  }
}
