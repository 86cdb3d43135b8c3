/** Upload checks of the file manager: the mask check (`validatePNGFile`),
    the replacement check (`validateImageFile`) and the `image/` prefix test
    that `loadImageFile` applies before decoding. A file is seen only through
    its MIME type string and its byte size. */
module Validation {
  import opened Pixels

  /** The two properties of a browser `File` that the checks read. */
  datatype FileInfo = FileInfo(mimeType: string, size: nat)

  /** Why an upload was refused, one value per `throw`/`reject` site. */
  datatype UploadError =
    | NotPng           // mask type does not mention "png"
    | MaskTooLarge     // mask larger than 10 MiB
    | UnsupportedType  // replacement type not on the allow-list
    | ReplaceTooLarge  // replacement larger than 20 MiB
    | NotAnImage       // type does not start with "image/"
    | DecodeFailed     // the browser could not decode the bytes

  /** Outcome of one check. */
  datatype Check = Pass | Fail(error: UploadError)

  /** Outcome of loading a file: the decoded image or the refusal. */
  datatype Upload = Accepted(image: Image) | Rejected(error: UploadError)

  const MaskMaxBytes: nat := 10 * 1024 * 1024
  const ReplaceMaxBytes: nat := 20 * 1024 * 1024
  const ImagePrefix: string := "image/"
  const AllowedReplaceTypes: seq<string> :=
    ["image/jpeg", "image/jpg", "image/png", "image/gif", "image/webp"]

  // ----- string tests, as JavaScript's startsWith and includes -----

  predicate StartsWith(s: string, prefix: string) {
    |prefix| <= |s| && s[..|prefix|] == prefix
  }

  /** `s.includes(sub)`: `sub` starts at some position of `s`, tried
      from the left. */
  predicate Includes(s: string, sub: string)
    decreases |s|
  {
    StartsWith(s, sub) || (|s| > 0 && Includes(s[1..], sub))
  }

  /** Reference meaning of `includes`: `s` splits around a copy of `sub`. */
  ghost predicate Occurs(s: string, sub: string) {
    exists pre, post :: s == pre + sub + post
  }

  /** Reference meaning of `startsWith`. */
  ghost predicate HasPrefix(s: string, prefix: string) {
    exists rest :: s == prefix + rest
  }

  lemma StartsWithIffPrefix(s: string, prefix: string)
    ensures StartsWith(s, prefix) <==> HasPrefix(s, prefix)
  {
    if StartsWith(s, prefix) {
      assert s == prefix + s[|prefix|..];
    }
    if HasPrefix(s, prefix) {
      var rest :| s == prefix + rest;
      assert s[..|prefix|] == prefix;
    }
  }

  lemma {:induction false} IncludesOccurs(s: string, sub: string)
    requires Includes(s, sub)
    ensures Occurs(s, sub)
    decreases |s|
  {
    if StartsWith(s, sub) {
      assert s == [] + sub + s[|sub|..];
    } else {
      IncludesOccurs(s[1..], sub);
      var pre, post :| s[1..] == pre + sub + post;
      assert s == ([s[0]] + pre) + sub + post;
    }
  }

  lemma {:induction false} OccursIncludes(s: string, sub: string, pre: string, post: string)
    requires s == pre + sub + post
    ensures Includes(s, sub)
    decreases |pre|
  {
    if pre == [] {
      assert s[..|sub|] == sub;
    } else {
      assert s[1..] == pre[1..] + sub + post;
      OccursIncludes(s[1..], sub, pre[1..], post);
    }
  }

  /** The left-to-right scan finds `sub` exactly when it occurs. */
  lemma IncludesIffOccurs(s: string, sub: string)
    ensures Includes(s, sub) <==> Occurs(s, sub)
  {
    if Includes(s, sub) {
      IncludesOccurs(s, sub);
    }
    if Occurs(s, sub) {
      var pre, post :| s == pre + sub + post;
      OccursIncludes(s, sub, pre, post);
    }
  }

  // ----- the checks -----

  /** `validatePNGFile`: the type must mention "png" (anywhere, so
      "image/apng" passes), then the size must not exceed 10 MiB. */
  function ValidatePngFile(f: FileInfo): (r: Check)
    ensures r == Pass <==> Occurs(f.mimeType, "png") && f.size <= 10485760
    ensures !Occurs(f.mimeType, "png") ==> r == Fail(NotPng)
    ensures Occurs(f.mimeType, "png") && f.size > 10485760 ==> r == Fail(MaskTooLarge)
  {
    IncludesIffOccurs(f.mimeType, "png");
    if !Includes(f.mimeType, "png") then Fail(NotPng)
    else if f.size > MaskMaxBytes then Fail(MaskTooLarge)
    else Pass
  }

  /** `validateImageFile`: the type must be one of five exact strings,
      then the size must not exceed 20 MiB. */
  function ValidateImageFile(f: FileInfo): (r: Check)
    ensures r == Pass <==>
      && (|| f.mimeType == "image/jpeg" || f.mimeType == "image/jpg"
          || f.mimeType == "image/png" || f.mimeType == "image/gif"
          || f.mimeType == "image/webp")
      && f.size <= 20971520
    ensures r.Fail? ==> r.error in {UnsupportedType, ReplaceTooLarge}
    ensures r == Fail(ReplaceTooLarge) ==> f.mimeType in AllowedReplaceTypes
    ensures f.mimeType !in AllowedReplaceTypes ==> r == Fail(UnsupportedType)
    ensures f.mimeType in AllowedReplaceTypes && f.size > 20971520 ==> r == Fail(ReplaceTooLarge)
  {
    if f.mimeType !in AllowedReplaceTypes then Fail(UnsupportedType)
    else if f.size > ReplaceMaxBytes then Fail(ReplaceTooLarge)
    else Pass
  }

  /** `loadImageFile`: refuses a type without the "image/" prefix before
      any decoding; otherwise the outcome is the browser's `decoded`
      image, or a decode failure when there is none. */
  function LoadImageFile(f: FileInfo, decoded: Option<Image>): (r: Upload)
    ensures r.Accepted? <==> HasPrefix(f.mimeType, "image/") && decoded.Some?
    ensures r.Accepted? ==> r.image == decoded.value
    ensures !HasPrefix(f.mimeType, "image/") ==> r == Rejected(NotAnImage)
  {
    StartsWithIffPrefix(f.mimeType, ImagePrefix);
    if !StartsWith(f.mimeType, ImagePrefix) then Rejected(NotAnImage)
    else match decoded
      case None => Rejected(DecodeFailed)
      case Some(img) => Accepted(img)
  }

  /** A mask file the upload handler takes, decoding aside. */
  ghost predicate MaskAccepted(f: FileInfo) {
    Occurs(f.mimeType, "png") && HasPrefix(f.mimeType, "image/") && f.size <= 10 * 1024 * 1024
  }

  /** A replacement file the upload handler takes, decoding aside. */
  ghost predicate ReplaceAccepted(f: FileInfo) {
    f.mimeType in {"image/jpeg", "image/jpg", "image/png", "image/gif", "image/webp"}
    && f.size <= 20 * 1024 * 1024
  }

  /** The mask path of `handleMaskUpload`: `validatePNGFile`, then
      `loadImageFile`. */
  function LoadMask(f: FileInfo, decoded: Option<Image>): (r: Upload)
    ensures r.Accepted? <==> MaskAccepted(f) && decoded.Some?
    ensures r.Accepted? ==> r.image == decoded.value
    ensures !Occurs(f.mimeType, "png") ==> r == Rejected(NotPng)
  {
    match ValidatePngFile(f)
    case Fail(e) => Rejected(e)
    case Pass => LoadImageFile(f, decoded)
  }

  /** The replacement path of `handleReplaceUpload`: `validateImageFile`,
      then `loadImageFile`, whose prefix test every allowed type passes. */
  function LoadReplacement(f: FileInfo, decoded: Option<Image>): (r: Upload)
    ensures r.Accepted? <==> ReplaceAccepted(f) && decoded.Some?
    ensures r.Accepted? ==> r.image == decoded.value
    ensures r.Rejected? ==> r.error != NotAnImage
  {
    match ValidateImageFile(f)
    case Fail(e) => Rejected(e)
    case Pass =>
      AllowedTypesAreImages(f.mimeType);
      LoadImageFile(f, decoded)
  }

  /** Every type on the replacement allow-list starts with "image/". */
  lemma AllowedTypesAreImages(t: string)
    requires t in AllowedReplaceTypes
    ensures HasPrefix(t, "image/")
  {
    assert t == "image/" + t[6..];
  }

  /** The size limits are inclusive: exactly 10 MiB and exactly 20 MiB
      pass, one byte more does not. */
  lemma SizeBoundaries()
    ensures ValidatePngFile(FileInfo("image/png", 10485760)) == Pass
    ensures ValidatePngFile(FileInfo("image/png", 10485761)) == Fail(MaskTooLarge)
    ensures ValidateImageFile(FileInfo("image/webp", 20971520)) == Pass
    ensures ValidateImageFile(FileInfo("image/webp", 20971521)) == Fail(ReplaceTooLarge)
  {
  }

  /** A type whose first character is not 'i' lacks the "image/" prefix. */
  lemma NoImagePrefix(t: string)
    requires |t| > 0 && t[0] != 'i'
    ensures !HasPrefix(t, "image/")
  {
  }

  /** The mask check's substring test lets through a type that is no
      image type at all; `loadImageFile` then refuses it. */
  lemma PngWithoutImagePrefix()
    ensures ValidatePngFile(FileInfo("application/png", 0)) == Pass
    ensures LoadMask(FileInfo("application/png", 0), None) == Rejected(NotAnImage)
  {
    var t := "application/png";
    assert t == t[..12] + "png" + t[15..];
    assert Occurs(t, "png");
    assert ValidatePngFile(FileInfo(t, 0)) == Pass;
    NoImagePrefix(t);
  }
}
