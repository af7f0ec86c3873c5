/**
 * The stateful half of `Image`: lazily created variants in a file store,
 * new images from uploads, and deletion of an image with its variants. The
 * store (the `Storage` facade rooted at `images/`) is reduced to the set of
 * file names it holds; reading, fitting and encoding pixels is not modelled,
 * so writing a file means its name becomes present.
 */
module ImageLibrary {
  import opened Wrappers
  import opened ImageNaming
  import Decimal
  import PathInfo

  /** Why `get` fails; in either case nothing is written. */
  datatype GetError =
    | UndefinedSize(size: string)       // `$this->sizes[$size]` on a key that is not a preset
    | UnreadableOriginal(image: string)  // the original cannot be loaded to be resized

  /** The path handed to `url()` for a stored file. */
  const UrlPrefix: string := "../storage/app/images/"

  function Url(name: string): string {
    UrlPrefix + name
  }

  /** The file store: which names exist under `images/`. */
  class Storage {
    var files: set<string>

    constructor (files: set<string>)
      ensures this.files == files
    {
      this.files := files;
    }

    /** Writes (or overwrites) the file `name`. */
    method Put(name: string)
      modifies this
      ensures files == old(files) + {name}
    {
      files := files + {name};
    }

    /** Deletes the file `name`; reports failure when there is no such file. */
    method Delete(name: string) returns (ok: bool)
      modifies this
      ensures ok == (name in old(files))
      ensures files == old(files) - {name}
    {
      ok := name in files;
      files := files - {name};
    }
  }

  /**
   * What `get($size)` on the image `image` does to a store holding `files`:
   * the result it returns and the files held afterwards.
   */
  function GetStep(files: set<string>, image: string, size: string): (out: (Result<string, GetError>, set<string>))
    ensures out.0.Ok? ==> out.0.value == Url(GetName(image, size)) && GetName(image, size) in out.1
    ensures out.1 == files || (GetName(image, size) !in files && out.1 == files + {GetName(image, size)})
    ensures out.0.Err? ==> out.1 == files
  {
    var name := GetName(image, size);
    if name in files then (Ok(Url(name)), files)
    else match Lookup(Sizes, size)
      case None => (Err(UndefinedSize(size)), files)
      case Some(_) =>
        if image in files then (Ok(Url(name)), files + {name})
        else (Err(UnreadableOriginal(image)), files)
  }

  /** `get` fails exactly when the name is missing and cannot be produced. */
  lemma GetFails(files: set<string>, image: string, size: string)
    ensures GetStep(files, image, size).0.Err? <==>
      GetName(image, size) !in files && (!IsPreset(size) || image !in files)
  {
  }

  /** `get` writes exactly when a preset's variant is missing and the original is there. */
  lemma GetWrites(files: set<string>, image: string, size: string)
    ensures GetStep(files, image, size).1 != files <==>
      IsPreset(size) && GetName(image, size) !in files && image in files
  {
  }

  /** A variant once present is served as is: a second identical `get` writes nothing. */
  lemma GetIdempotent(files: set<string>, image: string, size: string)
    requires GetStep(files, image, size).0.Ok?
    ensures GetStep(GetStep(files, image, size).1, image, size) == (GetStep(files, image, size).0, GetStep(files, image, size).1)
  {
  }

  /** `get()` on an existing original writes nothing and links the original itself. */
  lemma GetOriginal(files: set<string>, image: string)
    requires image in files
    ensures GetStep(files, image, "original") == (Ok(Url(image)), files)
  {
    OriginalIsNotPreset();
  }

  /** `{name}-{time}.{extension}`, the name `create` stores an upload under. */
  function StampedName(name: string, time: nat, extension: string): string {
    name + "-" + Decimal.ToString(time) + "." + extension
  }

  /**
   * pathinfo reads a stamped name back as `{name}-{digits}` and the upload's
   * extension, and the digits are the time stamp.
   */
  lemma StampedNameParts(name: string, time: nat, extension: string)
    requires '/' !in name && '/' !in extension && '.' !in extension
    ensures PathInfo.Extension(StampedName(name, time, extension)) == extension
    ensures PathInfo.Filename(StampedName(name, time, extension)) == name + "-" + Decimal.ToString(time)
    ensures Decimal.Canonical(Decimal.ToString(time)) && Decimal.Value(Decimal.ToString(time)) == time
  {
    var stamp := Decimal.ToString(time);
    DigitsHaveNoSeparator(time, '/');
    var stem := name + "-" + stamp;
    assert '/' !in stem;
    assert StampedName(name, time, extension) == stem + "." + extension;
    PathInfo.PlainNameParts(stem, extension);
    Decimal.ToStringCanonical(time);
    Decimal.ValueOfToString(time);
  }

  /** An image: a wrapper around the file name of an original in the store. */
  class Image {
    const image: string

    constructor (image: string)
      ensures Name() == image
    {
      this.image := image;
    }

    /** The wrapped file name. */
    function Name(): string {
      image
    }

    /** Whether `filename` is in the store. */
    static predicate Exists(store: Storage, filename: string)
      reads store
    {
      filename in store.files
    }

    /** Stores a processed image under `name`, overwriting any file of that name. */
    static method Save(store: Storage, name: string)
      modifies store
      ensures store.files == old(store.files) + {name}
    {
      store.Put(name);
    }

    /**
     * The URL of this image at `size`, creating the resized variant first
     * when it is not in the store yet.
     */
    method Get(store: Storage, size: string := "original") returns (url: Result<string, GetError>)
      modifies store
      ensures (url, store.files) == GetStep(old(store.files), image, size)
    {
      var name := GetName(image, size);
      if !Exists(store, name) {
        var dimensions := Lookup(Sizes, size);
        if dimensions.None? {
          return Err(UndefinedSize(size));
        }
        if !Exists(store, image) {
          return Err(UnreadableOriginal(image));
        }
        Save(store, name);
      }
      url := Ok(Url(name));
    }

    /** Stores an upload with extension `extension` as `{name}-{time}.{extension}`. */
    static method Create(store: Storage, extension: string, name: string, time: nat) returns (created: Image)
      modifies store
      ensures fresh(created) && created.Name() == StampedName(name, time, extension)
      ensures store.files == old(store.files) + {created.Name()}
    {
      var stamped := StampedName(name, time, extension);
      Save(store, stamped);
      created := new Image(stamped);
    }

    /**
     * Deletes `filename` and every variant of it that exists. The result is
     * that of deleting `filename` itself.
     */
    static method Delete(store: Storage, filename: string) returns (ok: bool)
      modifies store
      ensures ok == (filename in old(store.files))
      ensures store.files == old(store.files) - Variants(filename) - {filename}
    {
      for i := 0 to |Sizes|
        invariant store.files == old(store.files) - VariantsOf(filename, i)
      {
        var resized := GetName(filename, Sizes[i].key);
        if Exists(store, resized) {
          var removed := store.Delete(resized);
        }
      }
      NotOwnVariant(filename, |Sizes|);
      ok := store.Delete(filename);
    }
  }
}
