/** The asset directory (`public/assets`) and `_copy_image`, which the CLI
    repeats inline in both of its replacers: a found image is copied in under
    its own file name, unless a file of that name is already there with a
    different size, in which case the copy is renamed with a timestamp. */
module AssetStore {
  import opened Base
  import opened Paths

  /** File name -> bytes of the files in the asset directory. */
  type Assets = map<string, Bytes>

  /** `<stem>_<timestamp><suffix>` */
  function Stamped(name: string, stamp: string): string
  {
    Stem(name) + "_" + stamp + Suffix(name)
  }

  /** The destination name `_copy_image` picks for a source file called
      `name` holding `data`: sizes, not contents, decide a collision. */
  function CopyTarget(files: Assets, name: string, data: Bytes, stamp: string): string
  {
    if name in files && |files[name]| != |data| then Stamped(name, stamp) else name
  }

  /** A renamed copy keeps the original's stem and suffix, with the timestamp
      in between, and never lands on the original name. */
  lemma StampedShape(name: string, stamp: string)
    ensures Stamped(name, stamp) != name
    ensures Stem(name) + "_" <= Stamped(name, stamp)
    ensures Suffix(name) == Stamped(name, stamp)[|Stamped(name, stamp)| - |Suffix(name)|..]
  {
    StemSuffix(name);
    assert |Stamped(name, stamp)| == |name| + 1 + |stamp|;
  }

  /** Two files of different sizes under one name: the second copy gets a
      name of its own, and afterwards both are in the store. */
  lemma CollisionKeepsBoth(files: Assets, name: string, data: Bytes, stamp: string)
    requires name in files && |files[name]| != |data|
    ensures var dest := CopyTarget(files, name, data, stamp);
            && dest != name
            && files[dest := data][name] == files[name]
            && files[dest := data][dest] == data
  {
    StampedShape(name, stamp);
  }

  /** Without a size clash the copy goes under its own name and replaces
      what was there, even when the contents differ. */
  lemma SameSizeOverwrites(files: Assets, name: string, data: Bytes, stamp: string)
    requires name !in files || |files[name]| == |data|
    ensures CopyTarget(files, name, data, stamp) == name
    ensures files[CopyTarget(files, name, data, stamp) := data][name] == data
  {
  }

  /** Copying the same image again (same bytes, same timestamp) picks the
      same destination name, and the store does not change a second time. */
  lemma CopyTwice(files: Assets, name: string, data: Bytes, stamp: string)
    ensures var dest := CopyTarget(files, name, data, stamp);
            var after := files[dest := data];
            && CopyTarget(after, name, data, stamp) == dest
            && after[dest := data] == after
  {
    var dest := CopyTarget(files, name, data, stamp);
    if name in files && |files[name]| != |data| {
      StampedShape(name, stamp);
      assert files[dest := data][name] == files[name];
    }
  }

  class Store {
    var files: Assets

    constructor (initial: Assets)
      ensures files == initial
    {
      files := initial;
    }

    /** `_copy_image(src)`, for a source file called `name` holding `data`:
        returns the destination name; that one entry now holds `data`. */
    method CopyImage(name: string, data: Bytes, stamp: string) returns (dest: string)
      modifies this
      ensures dest == CopyTarget(old(files), name, data, stamp)
      ensures files == old(files)[dest := data]
    {
      dest := name;
      if name in files && |files[name]| != |data| {
        dest := Stem(name) + "_" + stamp + Suffix(name);
      }
      files := files[dest := data];
    }
  }
}
