/**
 * The client-side validator: a pure decision over a candidate file's
 * declared media type and byte size. The type is checked before the size,
 * so a file that fails both is reported as a type failure.
 */
module FileValidation {

  /** 5 MiB, the largest size accepted. */
  const MaxSize: nat := 5 * 1024 * 1024

  /** The media types accepted, compared as exact strings. */
  const AllowedTypes: seq<string> := ["image/jpeg", "image/png", "application/pdf"]

  const TypeNotAllowedMessage := "Tipo de arquivo não permitido"
  const TooLargeMessage := "Arquivo muito grande (máximo 5MB)"
  const ValidMessage := "Arquivo válido"

  /** The validator's verdict: an acceptance flag and the reason shown to the user. */
  datatype FileValidation = FileValidation(isValid: bool, message: string)

  /** `validateFile(file)`, over the file's `type` and `size`. */
  function ValidateFile(mimeType: string, size: nat): (r: FileValidation)
    ensures r.isValid <==> mimeType in AllowedTypes && size <= MaxSize
    ensures r.isValid <==> r.message == ValidMessage
    ensures r.message == TypeNotAllowedMessage <==> mimeType !in AllowedTypes
    ensures r.message == TooLargeMessage <==> mimeType in AllowedTypes && size > MaxSize
    ensures r.message in {TypeNotAllowedMessage, TooLargeMessage, ValidMessage}
  {
    if mimeType !in AllowedTypes then
      FileValidation(false, TypeNotAllowedMessage)
    else if size > MaxSize then
      FileValidation(false, TooLargeMessage)
    else
      FileValidation(true, ValidMessage)
  }

  /** A disallowed type is a type failure whatever the size. */
  lemma TypeCheckedFirst(mimeType: string, size1: nat, size2: nat)
    requires mimeType !in AllowedTypes
    ensures ValidateFile(mimeType, size1) == ValidateFile(mimeType, size2)
    ensures ValidateFile(mimeType, size1) == FileValidation(false, TypeNotAllowedMessage)
  {
  }

  /** The ceiling is inclusive: 5242880 bytes pass, 5242881 do not. */
  lemma SizeBoundary(mimeType: string)
    requires mimeType in AllowedTypes
    ensures MaxSize == 5242880
    ensures ValidateFile(mimeType, 5242880) == FileValidation(true, ValidMessage)
    ensures ValidateFile(mimeType, 5242881) == FileValidation(false, TooLargeMessage)
  {
  }

  /** Membership is exact: near-misses in spelling or case are type failures. */
  lemma NearMissesRejected(size: nat)
    ensures !ValidateFile("image/jpg", size).isValid
    ensures !ValidateFile("IMAGE/PNG", size).isValid
    ensures !ValidateFile("image/jpeg ", size).isValid
    ensures !ValidateFile("", size).isValid
    ensures ValidateFile("application/x-pdf", size).message == TypeNotAllowedMessage
  {
  }

  /** The three listed types are the only ones that can pass. */
  lemma AcceptedTypes(mimeType: string, size: nat)
    requires ValidateFile(mimeType, size).isValid
    ensures mimeType == "image/jpeg" || mimeType == "image/png" || mimeType == "application/pdf"
  {
  }
}
