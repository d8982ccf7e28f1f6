/**
 * The client-side check on an image before upload: an allowed MIME type
 * first, then a size of at most 10 MiB.
 */
module ImageValidation {
  import opened Wrappers

  const AllowedTypes: seq<string> := ["image/jpeg", "image/jpg", "image/png", "image/gif", "image/webp"]

  /** 10 × 1024 × 1024 bytes. */
  const MaxSize: int := 10 * 1024 * 1024

  const TypeError := "Invalid file type. Please upload a JPEG, PNG, GIF, or WebP image."
  const SizeError := "File size must be less than 10MB."

  datatype ImageFile = ImageFile(mimeType: string, size: int)

  datatype Validation = Validation(valid: bool, error: Option<string>)

  function ValidateImageFile(file: ImageFile): (v: Validation)
    ensures v.valid <==> file.mimeType in AllowedTypes && file.size <= MaxSize
    ensures v.valid <==> v.error.None?
    ensures file.mimeType !in AllowedTypes ==> v.error == Some(TypeError)
    ensures file.mimeType in AllowedTypes && file.size > MaxSize ==> v.error == Some(SizeError)
  {
    if file.mimeType !in AllowedTypes then Validation(false, Some(TypeError))
    else if file.size > MaxSize then Validation(false, Some(SizeError))
    else Validation(true, None)
  }

  /** Exactly 10 MiB is accepted and one byte more is not. */
  lemma SizeLimitIsInclusive(mimeType: string)
    requires mimeType in AllowedTypes
    ensures ValidateImageFile(ImageFile(mimeType, 10485760)).valid
    ensures ValidateImageFile(ImageFile(mimeType, 10485761)).error == Some(SizeError)
  {
  }

  /** The type is checked first: a file wrong on both counts gets the type error. */
  lemma TypeCheckedBeforeSize(file: ImageFile)
    requires file.mimeType !in AllowedTypes && file.size > MaxSize
    ensures ValidateImageFile(file).error == Some(TypeError)
  {
  }

  /** Type names are matched exactly, so case matters. */
  lemma TypeMatchIsExact()
    ensures !ValidateImageFile(ImageFile("image/PNG", 1)).valid
    ensures ValidateImageFile(ImageFile("image/jpg", 1)).valid
  {
    assert "image/PNG" != AllowedTypes[2];
    assert AllowedTypes[1] == "image/jpg";
  }
}
