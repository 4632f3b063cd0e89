/** ModItem.cs: one mod in the list, the file paths derived from its name,
    and the shared cache of composite list icons. The static icon cache is
    an IconCache object handed to the methods that use it; the mods
    folders (ModManager.gamedirModsPath and workshopModsPath) are
    parameters. */
module Mods {
  import opened Results
  import opened Text

  /* ---------------- icons ---------------- */

  /** Which of the three 16x16 icons a composite image shows, left to
      right: game directory, workshop, selected. */
  datatype Layers = Layers(gameDir: bool, workshop: bool, selected: bool)

  /** A composite icon; only what it shows and whether it was disposed. */
  class Image {
    const layers: Layers
    var disposed: bool

    constructor (layers: Layers)
      ensures this.layers == layers && !disposed
    {
      this.layers := layers;
      disposed := false;
    }

    method Dispose()
      modifies this
      ensures disposed
    {
      disposed := true;
    }
  }

  /** Convert.ToInt32 of a bool. */
  function Flag(b: bool): (n: int)
    ensures n == 0 || n == 1
    ensures b <==> n == 1
  {
    if b then 1 else 0
  }

  /** The icon-cache key: one decimal digit per layer. */
  function CacheKey(l: Layers): int {
    Flag(l.gameDir) * 100 + Flag(l.workshop) * 10 + Flag(l.selected)
  }

  /** The eight keys there are. */
  const AllKeys: set<int> := {0, 1, 10, 11, 100, 101, 110, 111}

  /** The layers a key stands for: its hundreds, tens and units digits. */
  function KeyLayers(key: int): Layers {
    Layers(key / 100 == 1, key / 10 % 10 == 1, key % 10 == 1)
  }

  /** Every key is one of the eight, and the key of a set of layers reads
      back as those layers, so distinct layers get distinct keys. */
  lemma CacheKeyLayers(l: Layers)
    ensures CacheKey(l) in AllKeys
    ensures KeyLayers(CacheKey(l)) == l
  {
  }

  lemma CacheKeyInjective(l: Layers, m: Layers)
    requires CacheKey(l) == CacheKey(m)
    ensures l == m
  {
    CacheKeyLayers(l);
    CacheKeyLayers(m);
  }

  /** `iconCache`: composite icons by key. */
  class IconCache {
    var entries: map<int, Image>

    constructor ()
      ensures entries == map[]
    {
      entries := map[];
    }

    /** Each icon sits under the key of what it shows. */
    predicate Valid()
      reads this, entries.Values
    {
      forall key | key in entries :: CacheKey(entries[key].layers) == key
    }

    /** DisposeIconCache: every cached icon disposed, then the cache
        emptied. */
    method DisposeAll()
      modifies this, entries.Values
      ensures entries == map[]
      ensures forall img | img in old(entries.Values) :: img.disposed
    {
      var remaining := entries.Values;
      ghost var all := entries.Values;
      while remaining != {}
        invariant remaining <= all
        invariant forall img | img in all - remaining :: img.disposed
        invariant entries.Values == all
        decreases remaining
      {
        var img :| img in remaining;
        img.Dispose();
        remaining := remaining - {img};
      }
      entries := map[];
    }
  }

  /** A valid cache holds icons only under the eight keys. */
  lemma CacheKeysKnown(cache: map<int, Image>)
    requires forall key | key in cache :: CacheKey(cache[key].layers) == key
    ensures cache.Keys <= AllKeys
  {
    forall key | key in cache ensures key in AllKeys {
      CacheKeyLayers(cache[key].layers);
    }
  }

  /* ---------------- paths ---------------- */

  /** Path.Combine of segments that are not rooted: the non-empty ones
      joined by '\', an empty segment being skipped. */
  function Combine(parts: seq<string>): (r: string)
    ensures r == [] <==> forall i :: 0 <= i < |parts| ==> parts[i] == []
  {
    if parts == [] then []
    else
      var rest := Combine(parts[1..]);
      assert forall i :: 1 <= i < |parts| ==> parts[i] == parts[1..][i - 1];
      if parts[0] == [] then rest
      else if rest == [] then parts[0]
      else parts[0] + "\\" + rest
  }

  /** Two segments: the separator goes between them only when both are
      non-empty. */
  lemma Combine2(a: string, b: string)
    ensures Combine([a, b]) == if a == [] then b else if b == [] then a else a + "\\" + b
  {
    assert [a, b][1..] == [b];
    assert [b][1..] == [];
  }

  /** Three segments are the first one combined with the other two. */
  lemma CombineFront(a: string, b: string, c: string)
    ensures Combine([a, b, c]) == Combine([a, Combine([b, c])])
  {
    assert [a, b, c][1..] == [b, c];
    Combine2(a, Combine([b, c]));
  }

  /** Path.Combine(a, b, c) is Path.Combine(Path.Combine(a, b), c). */
  lemma CombineNested(a: string, b: string, c: string)
    ensures Combine([a, b, c]) == Combine([Combine([a, b]), c])
  {
    CombineFront(a, b, c);
    Combine2(b, c);
    Combine2(a, b);
    Combine2(a, Combine([b, c]));
    Combine2(Combine([a, b]), c);
  }

  /** Where the last '.' of `s` is, if any. */
  function LastDot(s: string): (i: Option<nat>)
    ensures i.Some? ==> i.value < |s| && s[i.value] == '.' && '.' !in s[i.value + 1..]
    ensures i.None? ==> '.' !in s
  {
    if s == [] then None
    else if s[|s| - 1] == '.' then Some(|s| - 1)
    else
      var i := LastDot(s[..|s| - 1]);
      assert s[..|s| - 1] + [s[|s| - 1]] == s;
      if i.Some? then
        assert s[i.value + 1..] == s[..|s| - 1][i.value + 1..] + [s[|s| - 1]];
        i
      else None
  }

  /** Path.GetFileNameWithoutExtension of a file name: everything before
      the last '.', or the whole name when it has none. */
  function Stem(name: string): (stem: string)
    ensures stem <= name
    ensures '.' !in name ==> stem == name
    ensures '.' in name ==> exists ext :: '.' !in ext && name == stem + "." + ext
  {
    var i := LastDot(name);
    if i.None? then name
    else
      var ext := name[i.value + 1..];
      assert name == name[..i.value] + "." + ext;
      name[..i.value]
  }

  /** The last '.' of a name with an extension is the one before it. */
  lemma {:induction false} LastDotBefore(base: string, ext: string)
    requires '.' !in ext
    ensures LastDot(base + "." + ext) == Some(|base|)
  {
    var name := base + "." + ext;
    if ext != [] {
      assert name[|name| - 1] == ext[|ext| - 1];
      assert name[..|name| - 1] == base + "." + ext[..|ext| - 1];
      LastDotBefore(base, ext[..|ext| - 1]);
    }
  }

  /** A name with an extension loses exactly that extension. */
  lemma StemDropsExtension(base: string, ext: string)
    requires '.' !in ext
    ensures Stem(base + "." + ext) == base
  {
    LastDotBefore(base, ext);
    assert (base + "." + ext)[..|base|] == base;
  }

  /** Decimal text never holds a separator. */
  lemma IntTextNoSeparator(n: int)
    ensures '\\' !in IntText(n)
  {
    var r := IntText(n);
    if n < 0 {
      assert forall i :: 1 <= i < |r| ==> r[i] == Decimal(-n)[i - 1];
    }
    assert forall i :: 0 <= i < |r| ==> r[i] == '-' || '0' <= r[i] <= '9';
  }

  /** Int64.ToString is one-to-one. */
  lemma IntTextInjective(a: int, b: int)
    requires IntText(a) == IntText(b)
    ensures a == b
  {
    if a < 0 && b < 0 {
      assert Decimal(-a) == IntText(a)[1..] == Decimal(-b);
      DecimalInjective(-a, -b);
    } else if a >= 0 && b >= 0 {
      DecimalInjective(a, b);
    } else {
      IntTextSign(a);
      IntTextSign(b);
      assert false;
    }
  }

  lemma IntTextSign(n: int)
    ensures IntText(n)[0] == '-' <==> n < 0
  {
  }

  /** The folder of a mod's game-directory files: its stem under the mods
      folder. */
  function ModFolder(gamedirModsPath: string, name: string): string {
    Combine([gamedirModsPath, Stem(name)])
  }

  function DictFilePath(gamedirModsPath: string, name: string): string {
    Combine([gamedirModsPath, Stem(name), Stem(name) + ".dict"])
  }

  function BackupFilePath(gamedirModsPath: string, name: string): string {
    Combine([gamedirModsPath, Stem(name), Stem(name) + ".backup"])
  }

  /** The mod file itself: in its folder of the game directory when it is
      installed there, else under its workshop id, else nowhere. */
  function ModFilePath(gamedirModsPath: string, workshopModsPath: string, name: string,
                       inGameDir: bool, workshopId: int): (p: Option<string>)
    ensures p.None? <==> !inGameDir && workshopId == -1
    ensures inGameDir ==> p == Some(Combine([ModFolder(gamedirModsPath, name), name]))
  {
    CombineNested(gamedirModsPath, Stem(name), name);
    if inGameDir then Some(Combine([gamedirModsPath, Stem(name), name]))
    else if workshopId != -1 then Some(Combine([workshopModsPath, IntText(workshopId), name]))
    else None
  }

  /** A name that is all extension, such as ".mod", has an empty stem,
      which Path.Combine skips: the mod file sits directly in the mods
      folder. */
  lemma ExtensionOnlyName(gamedirModsPath: string, workshopModsPath: string, ext: string, workshopId: int)
    requires gamedirModsPath != [] && '.' !in ext
    ensures Stem("." + ext) == []
    ensures ModFilePath(gamedirModsPath, workshopModsPath, "." + ext, true, workshopId) == Some(gamedirModsPath + "\\." + ext)
  {
    var name := "." + ext;
    assert Stem(name) == [] by {
      StemDropsExtension([], ext);
      assert [] + "." + ext == name;
    }
    assert ModFolder(gamedirModsPath, name) == gamedirModsPath by {
      Combine2(gamedirModsPath, []);
    }
    assert Combine([gamedirModsPath, name]) == gamedirModsPath + "\\." + ext by {
      Combine2(gamedirModsPath, name);
      assert gamedirModsPath + "\\" + name == gamedirModsPath + "\\." + ext;
    }
  }

  /** The dictionary and the backup sit side by side in the mod's folder,
      named after its stem; their names differ only in the suffix, so the
      two paths differ. The flags play no part. */
  lemma DictBesideBackup(gamedirModsPath: string, name: string)
    ensures DictFilePath(gamedirModsPath, name) == Combine([ModFolder(gamedirModsPath, name), Stem(name) + ".dict"])
    ensures BackupFilePath(gamedirModsPath, name) == Combine([ModFolder(gamedirModsPath, name), Stem(name) + ".backup"])
    ensures DictFilePath(gamedirModsPath, name) != BackupFilePath(gamedirModsPath, name)
  {
    var folder := ModFolder(gamedirModsPath, name);
    CombineNested(gamedirModsPath, Stem(name), Stem(name) + ".dict");
    CombineNested(gamedirModsPath, Stem(name), Stem(name) + ".backup");
    Combine2(folder, Stem(name) + ".dict");
    Combine2(folder, Stem(name) + ".backup");
    assert |DictFilePath(gamedirModsPath, name)| + 2 == |BackupFilePath(gamedirModsPath, name)|;
  }

  /** A mod in the game directory has its dictionary in the folder that
      holds the mod file. */
  lemma DictBesideMod(gamedirModsPath: string, workshopModsPath: string, name: string, workshopId: int)
    ensures var folder := ModFolder(gamedirModsPath, name);
      && ModFilePath(gamedirModsPath, workshopModsPath, name, true, workshopId) == Some(Combine([folder, name]))
      && DictFilePath(gamedirModsPath, name) == Combine([folder, Stem(name) + ".dict"])
  {
    DictBesideBackup(gamedirModsPath, name);
  }

  /** Two workshop mods of the same name, outside the game directory, have
      different paths when their workshop ids differ. */
  lemma WorkshopPathsDistinct(gamedirModsPath: string, workshopModsPath: string, name: string, a: int, b: int)
    requires a != -1 && b != -1 && a != b
    ensures ModFilePath(gamedirModsPath, workshopModsPath, name, false, a) !=
            ModFilePath(gamedirModsPath, workshopModsPath, name, false, b)
  {
    var ta, tb := IntText(a), IntText(b);
    if ModFilePath(gamedirModsPath, workshopModsPath, name, false, a) ==
       ModFilePath(gamedirModsPath, workshopModsPath, name, false, b) {
      var x, y := Combine([ta, name]), Combine([tb, name]);
      Combine2(ta, name);
      Combine2(tb, name);
      CombineFront(workshopModsPath, ta, name);
      CombineFront(workshopModsPath, tb, name);
      Combine2(workshopModsPath, x);
      Combine2(workshopModsPath, y);
      var head := if workshopModsPath == [] then [] else workshopModsPath + "\\";
      assert Combine([workshopModsPath, x]) == head + x;
      assert Combine([workshopModsPath, y]) == head + y;
      assert x == (head + x)[|head|..] == (head + y)[|head|..] == y;
      IntTextNoSeparator(a);
      IntTextNoSeparator(b);
      if name != [] {
        SplitAfter(ta, name, '\\');
        SplitAfter(tb, name, '\\');
        assert Split(ta + "\\" + name, '\\')[0] == ta;
      }
      IntTextInjective(a, b);
    }
  }

  /* ---------------- the mod ---------------- */

  class ModItem {
    var name: string
    var language: string
    var inGameDir: bool
    var selected: bool
    var workshopId: int

    /** `new ModItem(name)` of a non-null name. */
    constructor (name: string)
      ensures this.name == name && language == "detecting..."
      ensures !inGameDir && !selected && workshopId == -1
    {
      this.name := name;
      language := "detecting...";
      inGameDir := false;
      selected := false;
      workshopId := -1;
    }

    /** `new ModItem(name)`, where a null name throws
        ArgumentNullException. */
    static method Create(name: Option<string>) returns (r: Option<ModItem>)
      ensures r.None? <==> name.None?
      ensures r.Some? ==> fresh(r.value) && r.value.name == name.value && r.value.language == "detecting..."
      ensures r.Some? ==> !r.value.inGameDir && !r.value.selected && r.value.workshopId == -1
      ensures r.Some? ==> r.value.ModFile("", "").None?
    {
      if name.None? {
        return None;
      }
      var item := new ModItem(name.value);
      return Some(item);
    }

    /** The icons this mod's composite shows. */
    function Icons(): Layers
      reads this
    {
      Layers(inGameDir, workshopId != -1, selected)
    }

    /** CreateCompositeIcon: the cached icon for these flags, or a new one
        drawn and cached under their key. Either way the icon shows this
        mod's flags, and the cache stays valid. */
    method CreateCompositeIcon(cache: IconCache) returns (img: Image)
      requires cache.Valid()
      modifies cache
      ensures cache.Valid()
      ensures img.layers == Icons()
      ensures CacheKey(Icons()) in old(cache.entries) ==>
                img == old(cache.entries)[CacheKey(Icons())] && cache.entries == old(cache.entries)
      ensures CacheKey(Icons()) !in old(cache.entries) ==>
                fresh(img) && !img.disposed && cache.entries == old(cache.entries)[CacheKey(Icons()) := img]
    {
      var key := Flag(inGameDir) * 100 + Flag(workshopId != -1) * 10 + Flag(selected);
      if key in cache.entries {
        img := cache.entries[key];
        CacheKeyInjective(img.layers, Icons());
        return;
      }
      img := new Image(Layers(inGameDir, workshopId != -1, selected));
      cache.entries := cache.entries[key := img];
    }

    /** getModFilePath, None for null. */
    function ModFile(gamedirModsPath: string, workshopModsPath: string): Option<string>
      reads this
    {
      ModFilePath(gamedirModsPath, workshopModsPath, name, inGameDir, workshopId)
    }

    /** getDictFilePath. */
    function DictFile(gamedirModsPath: string): string
      reads this
    {
      DictFilePath(gamedirModsPath, name)
    }

    /** getBackupFilePath. */
    function BackupFile(gamedirModsPath: string): string
      reads this
    {
      BackupFilePath(gamedirModsPath, name)
    }
  }
}
