/** How the files of the disk represent a file system: one file per block and
    one pair-list file per CFS file. */
module Disk {
  import opened Bytes
  import opened PairList
  import opened Naming
  import opened Storage
  import opened Contents

  /** The files under the blocks directory that have block names are the blocks. */
  ghost predicate BlocksOnDisk(files: Files, blocks: Blocks, st: BlkStore) {
    && (forall n :: n in blocks ==>
          BlockPath(st, n) in files && files[BlockPath(st, n)] == BlockBytes(blocks[n].refs, blocks[n].data))
    && (forall d: Digest :: BlockPath(st, Name(d)) in files ==> Name(d) in blocks)
  }

  predicate MetasOnDisk(files: Files, metas: map<string, Meta>) {
    forall p :: p in metas ==> p in files && files[p] == Encode(metas[p])
  }

  /** `path` is not the path of a block. */
  ghost predicate Apart(path: string, st: BlkStore) {
    forall d: Digest :: path != BlockPath(st, Name(d))
  }

  /** No file but a block comes or goes. */
  ghost predicate SameNames(files: Files, files': Files, st: BlkStore) {
    forall p :: Apart(p, st) ==> (p in files <==> p in files')
  }

  lemma SameNamesTwice(a: Files, b: Files, c: Files, st: BlkStore)
    ensures SameNames(a, a, st)
    ensures SameNames(a, b, st) && SameNames(b, c, st) ==> SameNames(a, c, st)
  {
    hide Apart;
  }

  ghost predicate OnDisk(files: Files, fs: Fs, st: BlkStore) {
    && BlocksOnDisk(files, fs.blocks, st)
    && MetasOnDisk(files, fs.metas)
    && forall p :: p in fs.metas ==> Apart(p, st)
  }

  /** The disk determines the pair lists it represents. */
  lemma MetaOnDiskUnique(files: Files, a: Fs, b: Fs, st: BlkStore, h: Hash, path: string)
    requires OnDisk(files, a, st) && OnDisk(files, b, st) && Inv(a, h) && Inv(b, h)
    requires path in a.metas && path in b.metas
    ensures a.metas[path] == b.metas[path]
  {
    hide Encode, Parse, WellFormed;
    MetaFits(a.metas[path], a.blocks);
    MetaFits(b.metas[path], b.blocks);
    ParseOfEncode(a.metas[path]);
    ParseOfEncode(b.metas[path]);
  }

  lemma BlockOnDisk(files: Files, blocks: Blocks, st: BlkStore, h: Hash, d: Digest)
    requires BlocksOnDisk(files, blocks, st) && BlocksOk(blocks, h)
    ensures FileSize(files, BlockPath(st, Name(d))) == BlockFileSize(blocks, d)
    ensures Loaded(files, BlockPath(st, Name(d)))
            == if Name(d) in blocks then Payload(blocks[Name(d)].data) else LoadFailed(-EEXIST)
  {
    hide BlockPath, Combined, Name, BlockBytes;
    if Name(d) in blocks {
      LoadedBlock(files, BlockPath(st, Name(d)), blocks[Name(d)].refs, blocks[Name(d)].data);
    }
  }

  /** The disk after `store_block`. */
  lemma StoreOnDisk(files: Files, fs: Fs, st: BlkStore, h: Hash, data: seq<byte>)
    requires OnDisk(files, fs, st) && BlocksOk(fs.blocks, h)
    ensures var path := BlockPath(st, Name(h(data)));
            var files' := if path in files then files else files[path := BlockBytes(1, data)];
            OnDisk(files', Fs(WithBlock(fs.blocks, h, data), fs.metas), st)
  {
    hide BlockPath, Combined, Name, BlockBytes, Encode, Hex, NulFree;
    var name := Name(h(data));
    var path := BlockPath(st, name);
    if path !in files {
      forall n | n in fs.blocks
        ensures BlockPath(st, n) != path
      {
      }
      forall d: Digest
        ensures BlockPath(st, Name(d)) == path <==> Name(d) == name
      {
        BlockPathInjective(st, Name(d), name);
      }
    } else {
      assert name in fs.blocks;
    }
  }

  /** The disk after a pair-list file is rewritten or created. */
  lemma MetaToDisk(files: Files, fs: Fs, st: BlkStore, path: string, m: Meta)
    requires OnDisk(files, fs, st) && Apart(path, st)
    requires BlocksKnown(fs.blocks)
    ensures OnDisk(files[path := Encode(m)], Fs(fs.blocks, fs.metas[path := m]), st)
  {
    hide BlockPath, Combined, Name, BlockBytes, Encode;
    forall n | n in fs.blocks
      ensures BlockPath(st, n) != path
    {
      var d: Digest :| n == Name(d);
    }
  }

  /** Every block name is the name of some digest. */
  ghost predicate BlocksKnown(blocks: Blocks) {
    forall n :: n in blocks ==> exists d: Digest :: n == Name(d)
  }

  lemma BlocksOkKnown(blocks: Blocks, h: Hash)
    requires BlocksOk(blocks, h)
    ensures BlocksKnown(blocks)
  {
  }
}
