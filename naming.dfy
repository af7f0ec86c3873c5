/**
 * The pure half of `Image`: the fixed table of size presets and the name a
 * resized variant of an image is stored under.
 */
module ImageNaming {
  import opened Wrappers
  import Decimal
  import PathInfo

  /** Target width and height of a resized variant, in pixels. */
  datatype Dimensions = Dimensions(width: nat, height: nat)

  /** One entry `key => [width, height]` of the preset table. */
  datatype Preset = Preset(key: string, size: Dimensions)

  /** The presets, in the order `delete` visits them. */
  const Sizes: seq<Preset> := [
    Preset("big", Dimensions(800, 600)),
    Preset("icon", Dimensions(48, 48)),
    Preset("small", Dimensions(96, 96)),
    Preset("medium", Dimensions(400, 400))
  ]

  /** Encoding quality, in percent, of every file the component writes. */
  const Quality: nat := 80

  predicate DistinctKeys(table: seq<Preset>) {
    forall i, j :: 0 <= i < j < |table| ==> table[i].key != table[j].key
  }

  /** True when `size` is a key of the preset table (`isset($this->sizes[$size])`). */
  ghost predicate IsPreset(size: string) {
    exists i :: 0 <= i < |Sizes| && Sizes[i].key == size
  }

  /** Array lookup `$table[$key]`: the dimensions stored under `key`, if any. */
  function Lookup(table: seq<Preset>, key: string): (r: Option<Dimensions>)
    ensures r.None? <==> forall i :: 0 <= i < |table| ==> table[i].key != key
  {
    if table == [] then None
    else if table[0].key == key then Some(table[0].size)
    else
      var r := Lookup(table[1..], key);
      assert forall i :: 1 <= i < |table| ==> table[1..][i - 1] == table[i];
      r
  }

  /** In a table whose keys are distinct, each key finds its own entry. */
  lemma {:induction false} LookupEntry(table: seq<Preset>, i: nat)
    requires DistinctKeys(table) && i < |table|
    ensures Lookup(table, table[i].key) == Some(table[i].size)
  {
    if i > 0 {
      assert table[0].key != table[i].key;
      LookupEntry(table[1..], i - 1);
    }
  }

  /** `{filename}-{W}x{H}.{extension}` for the file `name` and the target `d`. */
  function VariantName(name: string, d: Dimensions): string {
    VariantStem(name, d) + "." + PathInfo.Extension(name)
  }

  /** The stem a variant name is built from: the file name and the `-{W}x{H}` infix. */
  function VariantStem(name: string, d: Dimensions): string {
    PathInfo.Filename(name) + "-" + Decimal.ToString(d.width) + "x" + Decimal.ToString(d.height)
  }

  lemma DigitsHaveNoSeparator(n: nat, c: char)
    requires !Decimal.IsDigit(c)
    ensures c !in Decimal.ToString(n)
  {
    Decimal.ToStringCanonical(n);
  }

  /**
   * pathinfo reads a variant name back as its stem and the original's
   * extension: the variant keeps the file type, and carries no directory.
   */
  lemma VariantNameParts(name: string, d: Dimensions)
    ensures '/' !in VariantName(name, d)
    ensures PathInfo.Filename(VariantName(name, d)) == VariantStem(name, d)
    ensures PathInfo.Extension(VariantName(name, d)) == PathInfo.Extension(name)
  {
    DigitsHaveNoSeparator(d.width, '/');
    DigitsHaveNoSeparator(d.height, '/');
    var stem := VariantStem(name, d);
    assert VariantName(name, d) == stem + "." + PathInfo.Extension(name);
    PathInfo.PlainNameParts(stem, PathInfo.Extension(name));
  }

  /** Inserting a `-{W}x{H}` infix with non-empty numbers makes a name longer. */
  lemma InfixLengthens(name: string, f: string, e: string, w: string, h: string)
    requires name == f + "." + e || name == f
    requires |w| >= 1 && |h| >= 1
    ensures f + "-" + w + "x" + h + "." + e != name
  {
    assert |f + "-" + w + "x" + h + "." + e| == |f| + |w| + |h| + |e| + 3;
  }

  /** A variant name is never the name of the file it is derived from. */
  lemma VariantNameDiffers(name: string, d: Dimensions)
    ensures VariantName(name, d) != name
  {
    if '/' in name {
      VariantNameParts(name, d);
    } else {
      PathInfo.BasenameSplit(name);
      Decimal.ToStringCanonical(d.width);
      Decimal.ToStringCanonical(d.height);
      InfixLengthens(name, PathInfo.Filename(name), PathInfo.Extension(name),
        Decimal.ToString(d.width), Decimal.ToString(d.height));
    }
  }

  /** If `a` and `b` contain no `c`, then `a + [c] + x` determines both `a` and `x`. */
  lemma SplitAtFirst(a: string, x: string, b: string, y: string, c: char)
    requires c !in a && c !in b
    requires a + [c] + x == b + [c] + y
    ensures a == b && x == y
  {
    var s := a + [c] + x;
    assert s[|a|] == c && s[|b|] == c;
    assert a == s[..|a|] && b == s[..|b|];
    assert x == s[|a| + 1..] && y == s[|b| + 1..];
  }

  /** Two stems `f-{w}x{h}` built over the same `f` from digit strings agree only if their digits do. */
  lemma StemInjective(f: string, w1: string, h1: string, w2: string, h2: string)
    requires 'x' !in w1 && 'x' !in w2
    requires f + "-" + w1 + "x" + h1 == f + "-" + w2 + "x" + h2
    ensures w1 == w2 && h1 == h2
  {
    var p := f + "-";
    var r1, r2 := w1 + "x" + h1, w2 + "x" + h2;
    assert p + r1 == f + "-" + w1 + "x" + h1;
    assert p + r2 == f + "-" + w2 + "x" + h2;
    assert r1 == (p + r1)[|p|..] && r2 == (p + r2)[|p|..];
    SplitAtFirst(w1, h1, w2, h2, 'x');
  }

  /** The `-{W}x{H}` infix is unambiguous: a variant name determines its dimensions. */
  lemma VariantNameInjective(name: string, d1: Dimensions, d2: Dimensions)
    requires VariantName(name, d1) == VariantName(name, d2)
    ensures d1 == d2
  {
    VariantNameParts(name, d1);
    VariantNameParts(name, d2);
    DigitsHaveNoSeparator(d1.width, 'x');
    DigitsHaveNoSeparator(d2.width, 'x');
    StemInjective(PathInfo.Filename(name), Decimal.ToString(d1.width), Decimal.ToString(d1.height),
                  Decimal.ToString(d2.width), Decimal.ToString(d2.height));
    Decimal.ToStringInjective(d1.width, d2.width);
    Decimal.ToStringInjective(d1.height, d2.height);
  }

  /**
   * `getName($name, $size)`: the variant name for a preset key, the name
   * itself for any other key (including "original").
   */
  function GetName(name: string, size: string): (r: string)
    ensures !IsPreset(size) ==> r == name
  {
    match Lookup(Sizes, size)
    case None => name
    case Some(d) => VariantName(name, d)
  }

  /**
   * A preset's variant is a different file from the original, carries no
   * directory, and keeps the original's extension.
   */
  lemma PresetVariant(name: string, size: string)
    requires IsPreset(size)
    ensures GetName(name, size) != name
    ensures '/' !in GetName(name, size)
    ensures PathInfo.Extension(GetName(name, size)) == PathInfo.Extension(name)
  {
    var d := Lookup(Sizes, size).value;
    VariantNameParts(name, d);
    VariantNameDiffers(name, d);
  }

  /** The variant names of the first `n` presets. */
  function VariantsOf(name: string, n: nat): set<string>
    requires n <= |Sizes|
  {
    if n == 0 then {} else VariantsOf(name, n - 1) + {GetName(name, Sizes[n - 1].key)}
  }

  /** The names `delete` removes besides the original: one variant per preset. */
  function Variants(name: string): set<string> {
    VariantsOf(name, |Sizes|)
  }

  lemma SizesDistinct()
    ensures DistinctKeys(Sizes)
    ensures forall i, j :: 0 <= i < j < |Sizes| ==> Sizes[i].size != Sizes[j].size
  {
  }

  /** The variant of a preset in the table is named after that preset's dimensions. */
  lemma GetNameOfPreset(name: string, i: nat)
    requires i < |Sizes|
    ensures GetName(name, Sizes[i].key) == VariantName(name, Sizes[i].size)
  {
    SizesDistinct();
    LookupEntry(Sizes, i);
  }

  /** The four presets give four different variant names. */
  lemma VariantsDistinct(name: string, i: nat, j: nat)
    requires i < j < |Sizes|
    ensures GetName(name, Sizes[i].key) != GetName(name, Sizes[j].key)
  {
    SizesDistinct();
    GetNameOfPreset(name, i);
    GetNameOfPreset(name, j);
    if GetName(name, Sizes[i].key) == GetName(name, Sizes[j].key) {
      VariantNameInjective(name, Sizes[i].size, Sizes[j].size);
    }
  }

  /** The variant of the `i`-th preset is not the original. */
  lemma PresetVariantAt(name: string, i: nat)
    requires i < |Sizes|
    ensures GetName(name, Sizes[i].key) != name
  {
    GetNameOfPreset(name, i);
    VariantNameDiffers(name, Sizes[i].size);
  }

  /** The original is not among its variants. */
  lemma {:induction false} NotOwnVariant(name: string, n: nat)
    requires n <= |Sizes|
    ensures name !in VariantsOf(name, n)
  {
    if n > 0 {
      NotOwnVariant(name, n - 1);
      PresetVariantAt(name, n - 1);
    }
  }

  /**
   * `delete` has one distinct variant per preset to look for: the first `n`
   * presets give `n` names, none of which is the variant of a later preset.
   */
  lemma {:induction false} VariantsOfCount(name: string, n: nat)
    requires n <= |Sizes|
    ensures |VariantsOf(name, n)| == n
    ensures forall j :: n <= j < |Sizes| ==> GetName(name, Sizes[j].key) !in VariantsOf(name, n)
  {
    if n > 0 {
      VariantsOfCount(name, n - 1);
      var earlier, last := VariantsOf(name, n - 1), GetName(name, Sizes[n - 1].key);
      assert VariantsOf(name, n) == earlier + {last};
      assert last !in earlier;
      forall j | n <= j < |Sizes|
        ensures GetName(name, Sizes[j].key) !in earlier + {last}
      {
        VariantsDistinct(name, n - 1, j);
      }
    }
  }

  /** The four presets give `delete` four different names besides the original. */
  lemma VariantsCount(name: string)
    ensures |Variants(name)| == |Sizes| == 4
    ensures name !in Variants(name)
  {
    VariantsOfCount(name, |Sizes|);
    NotOwnVariant(name, |Sizes|);
  }

  /** The decimal text of the numbers in the preset table. */
  lemma PresetNumbers()
    ensures Decimal.ToString(800) == "800" && Decimal.ToString(600) == "600"
    ensures Decimal.ToString(48) == "48" && Decimal.ToString(96) == "96"
    ensures Decimal.ToString(400) == "400"
  {
    assert Decimal.ToString(8) == "8" && Decimal.ToString(80) == "80";
    assert Decimal.ToString(6) == "6" && Decimal.ToString(60) == "60";
    assert Decimal.ToString(4) == "4" && Decimal.ToString(40) == "40";
    assert Decimal.ToString(9) == "9";
  }

  /** The variant name of preset `i`, with its `-{W}x{H}.` infix given as `infix`. */
  lemma PresetFormula(name: string, i: nat, infix: string)
    requires i < |Sizes|
    requires infix == "-" + Decimal.ToString(Sizes[i].size.width) + "x"
                      + Decimal.ToString(Sizes[i].size.height) + "."
    ensures GetName(name, Sizes[i].key) == PathInfo.Filename(name) + infix + PathInfo.Extension(name)
  {
    var f, e := PathInfo.Filename(name), PathInfo.Extension(name);
    var w, h := Decimal.ToString(Sizes[i].size.width), Decimal.ToString(Sizes[i].size.height);
    GetNameOfPreset(name, i);
    assert GetName(name, Sizes[i].key) == f + "-" + w + "x" + h + "." + e;
    Regroup(f, w, h, e);
  }

  lemma Regroup(f: string, w: string, h: string, e: string)
    ensures f + "-" + w + "x" + h + "." + e == f + ("-" + w + "x" + h + ".") + e
  {
  }

  /** "big" gives `{filename}-800x600.{extension}`. */
  lemma BigFormula(name: string)
    ensures GetName(name, "big") == PathInfo.Filename(name) + "-800x600." + PathInfo.Extension(name)
  {
    PresetNumbers();
    assert Sizes[0] == Preset("big", Dimensions(800, 600));
    PresetFormula(name, 0, "-800x600.");
  }

  /** "icon" gives `{filename}-48x48.{extension}`. */
  lemma IconFormula(name: string)
    ensures GetName(name, "icon") == PathInfo.Filename(name) + "-48x48." + PathInfo.Extension(name)
  {
    PresetNumbers();
    assert Sizes[1] == Preset("icon", Dimensions(48, 48));
    PresetFormula(name, 1, "-48x48.");
  }

  /** "small" gives `{filename}-96x96.{extension}`. */
  lemma SmallFormula(name: string)
    ensures GetName(name, "small") == PathInfo.Filename(name) + "-96x96." + PathInfo.Extension(name)
  {
    PresetNumbers();
    assert Sizes[2] == Preset("small", Dimensions(96, 96));
    PresetFormula(name, 2, "-96x96.");
  }

  /** "medium" gives `{filename}-400x400.{extension}`. */
  lemma MediumFormula(name: string)
    ensures GetName(name, "medium") == PathInfo.Filename(name) + "-400x400." + PathInfo.Extension(name)
  {
    PresetNumbers();
    assert Sizes[3] == Preset("medium", Dimensions(400, 400));
    PresetFormula(name, 3, "-400x400.");
  }

  /** For a plain name `a.e` (no directory, no '.' in `e`) the infix goes between `a` and `.e`. */
  lemma GetNameOfPlainName(a: string, e: string)
    requires '/' !in a && '/' !in e && '.' !in e
    ensures GetName(a + "." + e, "big") == a + "-800x600." + e
    ensures GetName(a + "." + e, "icon") == a + "-48x48." + e
    ensures GetName(a + "." + e, "small") == a + "-96x96." + e
    ensures GetName(a + "." + e, "medium") == a + "-400x400." + e
  {
    PathInfo.PlainNameParts(a, e);
    BigFormula(a + "." + e);
    IconFormula(a + "." + e);
    SmallFormula(a + "." + e);
    MediumFormula(a + "." + e);
  }

  /** "photo.png" at the "icon" preset is stored as "photo-48x48.png". */
  lemma GetNameExample()
    ensures GetName("photo.png", "icon") == "photo-48x48.png"
  {
    assert "photo.png" == "photo" + "." + "png";
    assert "photo-48x48.png" == "photo" + "-48x48." + "png";
    GetNameOfPlainName("photo", "png");
  }

  /**
   * A variant is named after the last path component only: the directory of
   * the original is dropped, so `a/photo.png` and `b/photo.png` share their
   * variant names.
   */
  lemma GetNameDropsDirectory(dir: string, base: string, size: string)
    requires '/' !in base && base != [] && IsPreset(size)
    ensures GetName(dir + "/" + base, size) == GetName(base, size)
  {
    PathInfo.BasenameOfJoin(dir, base);
  }

  /** "original" and the key PHP uses for `null` ("") are not presets. */
  lemma OriginalIsNotPreset()
    ensures forall name :: GetName(name, "original") == name && GetName(name, "") == name
  {
    assert !IsPreset("original");
    assert !IsPreset("");
  }
}
