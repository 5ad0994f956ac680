/** The file admission gate: the check a picked file must pass before it
    becomes the selected file. The two pages differ only in which media types
    they allow and in the wording of their messages. */
module Admission {
  import opened Optional

  /** `Strict` is the dark page (an exact list of media types); `Lenient` is
      the light page (any `image/` media type). */
  datatype Variant = Strict | Lenient

  /** A file handed over by the browser's file picker. Only the declared media
      type and the byte size take part in admission. */
  datatype File = File(name: string, mediaType: string, size: nat)

  /** Why a file was refused; the type check runs first. */
  datatype Rejection = WrongType | TooLarge

  /** The size ceiling, 10 MiB. A file of exactly this size is admitted. */
  const MaxSize: nat := 10 * 1024 * 1024

  /** The dark page's list of admitted media types. */
  const StrictTypes: seq<string> := ["image/jpeg", "image/png", "image/gif"]

  /** The prefix the light page demands of a media type. */
  const ImagePrefix: string := "image/"

  predicate IsPrefix(p: string, s: string) {
    |p| <= |s| && s[..|p|] == p
  }

  predicate TypeAllowed(v: Variant, mediaType: string) {
    match v
    case Strict => mediaType in StrictTypes
    case Lenient => IsPrefix(ImagePrefix, mediaType)
  }

  /** The acceptance condition: an allowed type and a size within the ceiling. */
  predicate Admits(v: Variant, f: File) {
    TypeAllowed(v, f.mediaType) && f.size <= MaxSize
  }

  /** The outcome of a page's `validateFile`: no rejection when the file is
      admitted, otherwise the reason, with the type check taking precedence
      over the size check. */
  function Validate(v: Variant, f: File): (r: Option<Rejection>)
    ensures r.None? <==> Admits(v, f)
    ensures r == Some(WrongType) <==> !TypeAllowed(v, f.mediaType)
    ensures r == Some(TooLarge) <==> TypeAllowed(v, f.mediaType) && f.size > MaxSize
  {
    if !TypeAllowed(v, f.mediaType) then Some(WrongType)
    else if f.size > MaxSize then Some(TooLarge)
    else None
  }

  /** The human-readable reason each page gives for a rejection. */
  function Message(v: Variant, why: Rejection): (msg: string)
    ensures msg != []
  {
    match v
    case Strict =>
      if why == WrongType then "Invalid file type. Please upload a JPG, PNG, or GIF file."
      else "File is too large. Please upload an image smaller than 10MB."
    case Lenient =>
      if why == WrongType then "Please select an image file (PNG, JPG, GIF, etc.)."
      else "File size exceeds 10MB. Please choose a smaller file."
  }

  /** The light page's `validateFile`, which returns an error text or null. */
  function ValidationError(v: Variant, f: File): (err: Option<string>)
    ensures err.None? <==> Admits(v, f)
    ensures err.Some? ==> err.value != []
    ensures !TypeAllowed(v, f.mediaType) ==> err == Some(Message(v, WrongType))
    ensures TypeAllowed(v, f.mediaType) && f.size > MaxSize ==> err == Some(Message(v, TooLarge))
  {
    match Validate(v, f)
    case None => None
    case Some(why) => Some(Message(v, why))
  }

  /** Each page tells a wrong type apart from an oversized file. */
  lemma MessagesDistinguishReasons(v: Variant)
    ensures Message(v, WrongType) != Message(v, TooLarge)
  {
  }

  /** The size ceiling is inclusive: a file of exactly 10 MiB with an allowed
      type is admitted, one byte more is refused as too large. */
  lemma SizeCeilingInclusive(v: Variant, name: string, mediaType: string)
    requires TypeAllowed(v, mediaType)
    ensures Validate(v, File(name, mediaType, 10 * 1024 * 1024)) == None
    ensures Validate(v, File(name, mediaType, 10 * 1024 * 1024 + 1)) == Some(TooLarge)
  {
  }

  /** The type check decides the reason: a file of the wrong type is reported
      as such whatever its size. */
  lemma TypeCheckFirst(v: Variant, f: File)
    requires !TypeAllowed(v, f.mediaType)
    ensures Validate(v, f) == Some(WrongType)
    ensures ValidationError(v, f) == Some(Message(v, WrongType))
  {
  }

  /** Every file the dark page admits, the light page admits too. */
  lemma StrictWithinLenient(f: File)
    ensures Admits(Strict, f) ==> Admits(Lenient, f)
  {
  }

  /** ... and the inclusion is strict: a small `image/webp` file passes the
      light page and is refused by the dark one. */
  lemma LenientAdmitsMore()
    ensures var f := File("photo.webp", "image/webp", 1024);
      Admits(Lenient, f) && Validate(Strict, f) == Some(WrongType)
  {
  }

  /** `Array.prototype.includes` on a list of strings: a front-to-back scan. */
  method ListIncludes(list: seq<string>, item: string) returns (found: bool)
    ensures found <==> item in list
  {
    found := false;
    var i := 0;
    while i < |list|
      invariant 0 <= i <= |list|
      invariant found <==> item in list[..i]
    {
      assert list[..i + 1] == list[..i] + [list[i]];
      if list[i] == item {
        found := true;
      }
      i := i + 1;
    }
    assert list[..i] == list;
  }

  /** `String.prototype.startsWith`: a character-by-character comparison. */
  method StartsWith(s: string, prefix: string) returns (b: bool)
    ensures b <==> IsPrefix(prefix, s)
  {
    if |prefix| > |s| {
      return false;
    }
    var i := 0;
    while i < |prefix|
      invariant 0 <= i <= |prefix|
      invariant s[..i] == prefix[..i]
    {
      if s[i] != prefix[i] {
        assert s[..|prefix|][i] != prefix[i];
        return false;
      }
      assert s[..i + 1] == prefix[..i + 1];
      i := i + 1;
    }
    assert prefix[..i] == prefix;
    b := true;
  }

  /** The gate as the pages run it, with the library calls spelled out:
      the type check (`includes` or `startsWith`), then the size check. */
  method CheckFile(v: Variant, f: File) returns (r: Option<Rejection>)
    ensures r.None? <==> Admits(v, f)
    ensures r == Some(WrongType) <==> !TypeAllowed(v, f.mediaType)
    ensures r == Validate(v, f)
  {
    var typeOk: bool;
    match v {
      case Strict =>
        typeOk := ListIncludes(StrictTypes, f.mediaType);
      case Lenient =>
        typeOk := StartsWith(f.mediaType, ImagePrefix);
    }
    if !typeOk {
      r := Some(WrongType);
    } else if f.size > MaxSize {
      r := Some(TooLarge);
    } else {
      r := None;
    }
  }
}
