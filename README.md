# Image library model

A Dafny model of the `Image` class (`App\Library\Image\Image`) of a Laravel
application. The class stores uploaded pictures under `images/`. It serves
each picture at one of four preset sizes, writing a resized copy (a
*variant*) the first time a size is asked for. It also deletes a picture
together with all of its variants.

The model has five modules:

- `Wrappers`: `Option` and `Result`.
- `Decimal`: PHP's conversion of a non-negative integer to its decimal text
  (`ToString`). Its inverse is `Value`, and the two round-trip.
- `PathInfo`: PHP's `basename` and `pathinfo(..., PATHINFO_FILENAME)` /
  `PATHINFO_EXTENSION` on '/'-separated paths. Trailing slashes are dropped.
  The base name is the text after the last '/'. It splits at its last '.'.
- `ImageNaming`: the pure half.
  - The preset table `Sizes` (big 800x600, icon 48x48, small 96x96,
    medium 400x400) and the constant `Quality` (80).
  - The array lookup `Lookup`.
  - `getName` as `GetName`: `{filename}-{W}x{H}.{extension}` for a preset
    key, otherwise the name unchanged.
  - The set `Variants(name)` of the names `delete` visits.
- `ImageLibrary`: the stateful half.
  - A `Storage` class whose only field is the set of file names held under
    `images/`.
  - The spec function `GetStep`, which gives the result and the new file set
    of one `get` call.
  - The `Image` class, holding the wrapped file name as a constant:
    - `Name()` is `name()`;
    - `Exists` is `exists`;
    - `Save`, `Get`, `Create` and `Delete` are the methods of the same names.
  - `Url(name)` is the text handed to `url()`.
  - `StampedName` is the name `create` stores an upload under.

Both failures of `get` are modelled as `Err` results, and each leaves the
store as it was:

- `UndefinedSize`: the size is not a preset key and the unchanged name is not
  in the store. PHP then indexes `$this->sizes` with a missing key, which
  Laravel turns into an exception.
- `UnreadableOriginal`: the size is a preset, its variant is missing, and so
  is the original. Intervention cannot read the original.

## Model

| member | source | states |
|---|---|---|
| Decimal.ToString | Image.php:76 | no contract; the definition is PHP's decimal text of a non-negative integer, characterised by the three lemmas below |
| Decimal.ToStringCanonical | Image.php:76 | PHP's decimal text of a number is non-empty, all digits, and has no leading zero unless it is "0" |
| Decimal.ValueOfToString | Image.php:76 | reading the decimal text back gives the number again |
| Decimal.ToStringOfValue | Image.php:76 | every canonical digit string is the decimal text of its value (the other round trip) |
| Decimal.ToStringInjective | Image.php:76 | different numbers have different decimal texts |
| PathInfo.LastIndexOf | Image.php:73-74 | the result is -1 or a position holding the character, and no later position holds it |
| PathInfo.StripTrailingSlashes | Image.php:73-74 | the result is a prefix of the path, does not end in '/', and only '/' was removed |
| PathInfo.Basename | Image.php:73-74 | the base name holds no '/', and a path without '/' is its own base name |
| PathInfo.BasenameOfJoin | Image.php:73-74 | the base name of `d/b` is its last component `b`, whatever the directory `d` |
| PathInfo.BasenameOfTrailingSlash | Image.php:73-74 | a trailing '/' does not change the base name |
| PathInfo.Filename | Image.php:73 | the file name holds no '/', and is the whole base name when that has no '.' |
| PathInfo.Extension | Image.php:74 | the extension holds no '.' and no '/', and is empty when the base name has no '.' |
| PathInfo.BasenameSplit | Image.php:73-74 | file name + "." + extension rebuilds the base name, or the file name alone does when there is no '.' |
| PathInfo.LastIndexOfJoin | Image.php:73-74 | in `a + [c] + e` with no `c` in `e`, the last `c` is at position `|a|` |
| PathInfo.PlainNameParts | Image.php:73-74 | `a.e` with no '/' anywhere and no '.' in `e` has file name `a` and extension `e` |
| ImageNaming.Sizes | Image.php:16-21 | no contract; the preset table big 800x600, icon 48x48, small 96x96, medium 400x400, in that order |
| ImageNaming.Quality | Image.php:11 | no contract; the encoding quality 80 |
| ImageNaming.Lookup | Image.php:71-72 | the lookup finds nothing exactly when no entry of the table has the key |
| ImageNaming.LookupEntry | Image.php:16-21 | in a table with distinct keys, each entry's key finds that entry's dimensions |
| ImageNaming.SizesDistinct | Image.php:16-21 | the preset keys are pairwise distinct, and so are the preset dimensions |
| ImageNaming.DigitsHaveNoSeparator | Image.php:76 | a non-digit separator ('/', 'x', '.') never occurs in a decimal text |
| ImageNaming.VariantName | Image.php:76 | no contract; the definition is the `{filename}-{W}x{H}.{extension}` expression |
| ImageNaming.VariantNameParts | Image.php:73-76 | a variant name has no directory, pathinfo reads its file name back as `{filename}-{W}x{H}`, and it keeps the original's extension |
| ImageNaming.InfixLengthens | Image.php:76 | inserting `-{W}x{H}` with non-empty numbers always lengthens the name |
| ImageNaming.VariantNameDiffers | Image.php:76 | a variant name is never the original's name, whatever the path |
| ImageNaming.StemInjective | Image.php:76 | the stem `{filename}-{W}x{H}` determines W and H |
| ImageNaming.VariantNameInjective | Image.php:76 | two dimensions that give the same variant name of one file are equal |
| ImageNaming.GetName | Image.php:70-80 | a key that is not a preset returns the name unchanged |
| ImageNaming.PresetVariant | Image.php:71-76 | for a preset key the result differs from the name, has no directory, and keeps the extension |
| ImageNaming.GetNameOfPreset | Image.php:71-76 | the `i`-th preset's name is the variant name for that preset's own dimensions |
| ImageNaming.VariantsDistinct | Image.php:16-21 | the four presets give four pairwise different names for any file |
| ImageNaming.PresetVariantAt | Image.php:135-136 | the name `delete` computes for any preset is never the file being deleted |
| ImageNaming.NotOwnVariant | Image.php:135-143 | the file itself is not among the variants `delete` visits first |
| ImageNaming.VariantsOfCount | Image.php:135-136 | the first `n` presets give `n` distinct names, none equal to a later preset's name |
| ImageNaming.VariantsCount | Image.php:135-143 | `delete` looks for exactly four variants, all different from the file itself |
| ImageNaming.PresetNumbers | Image.php:17-20 | the decimal texts of the table's numbers are "800", "600", "48", "96" and "400" |
| ImageNaming.PresetFormula | Image.php:72-76 | the `i`-th preset's name is the file name, the `-{W}x{H}.` infix, then the extension |
| ImageNaming.BigFormula | Image.php:17 | "big" gives `{filename}-800x600.{extension}` |
| ImageNaming.IconFormula | Image.php:18 | "icon" gives `{filename}-48x48.{extension}` |
| ImageNaming.SmallFormula | Image.php:19 | "small" gives `{filename}-96x96.{extension}` |
| ImageNaming.MediumFormula | Image.php:20 | "medium" gives `{filename}-400x400.{extension}` |
| ImageNaming.GetNameOfPlainName | Image.php:73-76 | for a plain `a.e` the infix goes between `a` and `.e`, for each preset |
| ImageNaming.GetNameExample | Image.php:76 | "photo.png" at "icon" is "photo-48x48.png" |
| ImageNaming.GetNameDropsDirectory | Image.php:73-76 | a preset's variant of `dir/base` is that of `base`: the directory is dropped, so files of the same name in different directories share variant names |
| ImageNaming.OriginalIsNotPreset | Image.php:79 | "original" (the default of `get`) and "" (the key PHP uses for `null`) leave every name unchanged |
| ImageLibrary.Url | Image.php:61 | no contract; the definition is the prefix `../storage/app/images/` followed by the name |
| ImageLibrary.Storage.constructor | Image.php:99 | a store starts out holding exactly the given names |
| ImageLibrary.Storage.Put | Image.php:124 | writing a file adds its name and changes nothing else |
| ImageLibrary.Storage.Delete | Image.php:139 | deleting removes that name only, and reports whether the file was there |
| ImageLibrary.GetStep | Image.php:50-62 | on success the URL is the prefix + `getName`, and that name is then stored; at most that one name is added, and only if it was missing; an error leaves the store unchanged |
| ImageLibrary.GetFails | Image.php:53-56 | `get` fails exactly when the name is missing and either the size is not a preset or the original is missing |
| ImageLibrary.GetWrites | Image.php:53-59 | `get` writes exactly when the size is a preset, the variant is missing and the original is present |
| ImageLibrary.GetIdempotent | Image.php:51-59 | a second identical `get` after a successful one returns the same URL and writes nothing |
| ImageLibrary.GetOriginal | Image.php:50-61 | `get("original")` on a stored original links the original itself and writes nothing |
| ImageLibrary.StampedName | Image.php:109 | no contract; the definition is the `{name}-{time}.{extension}` expression |
| ImageLibrary.StampedNameParts | Image.php:109 | the name `create` picks has the upload's extension, file name `{name}-{time}`, and the digits read back as the time stamp |
| ImageLibrary.Image.constructor | Image.php:34-36 | the new image wraps the given file name |
| ImageLibrary.Image.Name | Image.php:41-43 | no contract; returns the wrapped file name |
| ImageLibrary.Image.Exists | Image.php:98-100 | no contract; true when the name is in the store |
| ImageLibrary.Image.Save | Image.php:123-125 | saving adds the name to the store and changes nothing else |
| ImageLibrary.Image.Get | Image.php:50-62 | the returned URL and the new store are those `GetStep` gives for the old store, default size "original" |
| ImageLibrary.Image.Create | Image.php:108-115 | a fresh image named `{name}-{time}.{extension}` is returned, and only that name is added to the store |
| ImageLibrary.Image.Delete | Image.php:132-144 | afterwards neither the file nor any of its variants is stored, all other files are untouched, and the result is whether the file itself was there |

## Left out

- `Image::storage()` and `storage_path()`: the model keys every file by its
  name alone. It does not model the `app\images\` path with backslashes that
  Intervention writes to, nor how that path differs from the `images/` disk
  path that `exists` and `delete` use.
- `url()`: reduced to the prefix `../storage/app/images/` followed by the
  name. The application's base URL is not modelled.
- Image content: decoding, `fit`, and encoding at `Quality` are not modelled.
  Writing a file means only that its name becomes present. `Quality` is kept
  as the table constant and no member uses it.
- `Image.Create`: `time()` and `getClientOriginalExtension()` are parameters.
  The model does not capture Intervention failing to read an upload that is
  not an image.
- `Image.Delete`: the temporary `new Image($filename)` on line 133 is not
  allocated. The loop calls `GetName` on the file name directly, which returns
  the same names.
- `Image.Get`: an unknown size key is modelled as an `UndefinedSize` error,
  following Laravel's behaviour of turning PHP's undefined-index notice into
  an exception. Under plain PHP the `make()` call on line 56 fails for that
  case too, so either way nothing is written.
- `PathInfo.Basename`: models PHP on '/'-separated paths in an
  ASCII-compatible locale. Windows '\' separators and multibyte locales are
  not modelled.
- The `Storage` facade is a set of names. `Storage::delete` of a missing file
  returns false, as the Flysystem 1 adapter of Laravel 8 and earlier does.
  From Laravel 9 on it returns true. The model follows the earlier behaviour. Concurrent access to
  the store is not modelled.
- `null` as a size key is modelled as "", the key PHP converts `null` to.
