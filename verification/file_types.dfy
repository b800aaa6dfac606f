/**
 * How the file request handlers classify a file from its name: the extension
 * (GetExtention), whether the file is served as binary (FileIsBinary) and the
 * media type sent for it (GetMimeType).
 */
module FileTypes {

  /** The extensions FileIsBinary treats as text. */
  predicate IsTextExtension(e: string) {
    e == "html" || e == "css" || e == "js" || e == "txt" || e == "htm" || e == "xml" ||
    e == "json" || e == "rtf" || e == "xhtml" || e == "shtml" || e == "csv"
  }

  /** The extensions GetMimeType has an entry for. */
  predicate IsKnownExtension(e: string) {
    IsTextExtension(e) ||
    e == "png" || e == "jpeg" || e == "jpg" || e == "jpe" || e == "pdf" || e == "zip" || e == "ico" || e == "doc" || e == "dot" || e == "docx" || e == "xls" || e == "xla" || e == "xlsx" ||
    e == "ppt" || e == "ppz" || e == "pps" || e == "pot" || e == "gif" || e == "bmp" || e == "wav" || e == "mp2" || e == "mp3" || e == "aac" || e == "aif" || e == "aiff" || e == "aifc" ||
    e == "mpeg" || e == "mpg" || e == "mpe" || e == "qt" || e == "mov" || e == "avi" || e == "tiff" || e == "tif" || e == "swf" || e == "cab" || e == "hlp" || e == "chm" || e == "midi" || e == "mid"
  }

  /** The top-level types the table uses. */
  datatype TopType = Text | Image | Audio | Video | Application

  /** The subtypes the table uses; NoSubtype marks an entry that names the top-level type alone. */
  datatype Subtype =
    | NoSubtype | Html | Css | Javascript | Plain | Xml | Rtf | CommaSeparatedValues
    | Png | Jpeg | XIcon | Gif | Bmp | Tiff
    | Pdf | Zip | Json | MsWord | WordprocessingDocument | MsExcel | SpreadsheetSheet | MsPowerpoint
    | XShockwaveFlash | MsHelp | OctetStreamData
    | XWav | XMpeg | XAiff | XMidi | Mpeg | Quicktime | XMsvideo

  /** A media type as the table writes it: top-level type and subtype. */
  datatype MediaType = MediaType(top: TopType, subtype: Subtype)

  function TopName(t: TopType): string {
    match t
    case Text => "text"
    case Image => "image"
    case Audio => "audio"
    case Video => "video"
    case Application => "application"
  }

  /**
   * The subtype's text. The spreadsheet entry keeps the space after
   * "officedocument." that the table has.
   */
  function SubtypeName(s: Subtype): string {
    match s
    case NoSubtype => ""
    case Html => "html"
    case Css => "css"
    case Javascript => "javascript"
    case Plain => "plain"
    case Xml => "xml"
    case Rtf => "rtf"
    case CommaSeparatedValues => "comma-separated-values"
    case Png => "png"
    case Jpeg => "jpeg"
    case XIcon => "x-icon"
    case Gif => "gif"
    case Bmp => "bmp"
    case Tiff => "tiff"
    case Pdf => "pdf"
    case Zip => "zip"
    case Json => "json"
    case MsWord => "msword"
    case WordprocessingDocument => "vnd.openxmlformats-officedocument.wordprocessingml.document"
    case MsExcel => "msexcel"
    case SpreadsheetSheet => "vnd.openxmlformats-officedocument. spreadsheetml.sheet"
    case MsPowerpoint => "mspowerpoint"
    case XShockwaveFlash => "x-shockwave-flash"
    case MsHelp => "mshelp"
    case OctetStreamData => "octet-stream"
    case XWav => "x-wav"
    case XMpeg => "x-mpeg"
    case XAiff => "x-aiff"
    case XMidi => "x-midi"
    case Mpeg => "mpeg"
    case Quicktime => "quicktime"
    case XMsvideo => "x-msvideo"
  }

  /**
   * The text sent in the Content-Type header: the top-level name, followed
   * by '/' and the subtype's text unless the entry has no subtype.
   */
  function ToString(m: MediaType): (r: string)
    ensures |TopName(m.top)| <= |r| && r[..|TopName(m.top)|] == TopName(m.top)
    ensures m.subtype != NoSubtype ==> |TopName(m.top)| < |r| && r[|TopName(m.top)|] == '/'
    ensures r == TopName(m.top) <==> m.subtype == NoSubtype
  {
    TopName(m.top) + (if m.subtype == NoSubtype then "" else "/" + SubtypeName(m.subtype))
  }

  const OctetStream := MediaType(Application, OctetStreamData)
  const ApplicationJson := MediaType(Application, Json)

  /** The media types that announce text content: the text/ types and JSON. */
  predicate AnnouncesText(m: MediaType) {
    m.top == Text || m == ApplicationJson
  }

  predicate IsUpper(c: char) {
    'A' <= c <= 'Z'
  }

  /** Lower-casing of one character (ASCII letters only). */
  function LowerChar(c: char): (r: char)
    ensures !IsUpper(r)
    ensures r == '.' <==> c == '.'
  {
    if IsUpper(c) then (c as int + 32) as char else c
  }

  function Lower(s: string): (r: string)
    ensures |r| == |s|
    ensures forall i :: 0 <= i < |s| ==> r[i] == LowerChar(s[i])
  {
    seq(|s|, i requires 0 <= i < |s| => LowerChar(s[i]))
  }

  /** The position of the last '.' in name[..n], or -1 when there is none. */
  function LastDotBelow(name: string, n: int): (j: int)
    requires 0 <= n <= |name|
    ensures -1 <= j && j < n
    ensures j >= 0 ==> name[j] == '.'
    ensures forall k :: j < k < n ==> name[k] != '.'
    decreases n
  {
    if n == 0 then -1
    else if name[n - 1] == '.' then n - 1
    else LastDotBelow(name, n - 1)
  }

  /**
   * The extension of a file name: what follows the last '.' that is not the
   * final character, lower-cased; "" for names shorter than two characters
   * and for names without such a dot.
   */
  function ExtensionOf(name: string): (r: string)
    ensures |name| < 2 ==> r == ""
    ensures (forall k :: 0 <= k <= |name| - 2 ==> name[k] != '.') ==> r == ""
    ensures (exists k :: 0 <= k <= |name| - 2 && name[k] == '.') ==> r != ""
    ensures r != "" ==> |r| < |name| && name[|name| - |r| - 1] == '.' && r == Lower(name[|name| - |r|..])
    ensures forall k :: 0 <= k < |r| ==> !IsUpper(r[k])
    ensures forall k :: 0 <= k < |r| - 1 ==> r[k] != '.'
  {
    if |name| < 2 then ""
    else
      var j := LastDotBelow(name, |name| - 1);
      if j < 0 then "" else Lower(name[j + 1..])
  }

  /** The backward scan for the separating dot, starting at the second-to-last character. */
  method GetExtention(fileName: string) returns (r: string)
    ensures r == ExtensionOf(fileName)
  {
    if |fileName| < 2 {
      return "";
    }
    var i := |fileName| - 2;
    while i >= 0
      invariant -1 <= i <= |fileName| - 2
      invariant forall k :: i < k <= |fileName| - 2 ==> fileName[k] != '.'
    {
      if fileName[i] == '.' {
        assert LastDotBelow(fileName, |fileName| - 1) == i;
        return Lower(fileName[i + 1..]);
      }
      i := i - 1;
    }
    return "";
  }

  /** A name built as base + "." + ext yields ext (lower-cased), whatever the base holds. */
  lemma ExtensionRoundTrip(base: string, ext: string)
    requires ext != "" && '.' !in ext
    ensures ExtensionOf(base + "." + ext) == Lower(ext)
  {
    var name := base + "." + ext;
    assert name[|base|] == '.';
    assert forall k :: |base| < k < |name| ==> name[k] == ext[k - |base| - 1];
    var j := LastDotBelow(name, |name| - 1);
    assert j == |base|;
    assert name[j + 1..] == ext;
  }

  /** Names shorter than two characters, and names with a text extension, are not binary. */
  function FileIsBinary(fileName: string, extention: string): (r: bool)
    ensures r <==> |fileName| < 2 || !IsTextExtension(extention)
  {
    if |fileName| < 2 then true
    else match extention
      case "html" | "css" | "js" | "txt" | "htm" | "xml" | "json" | "rtf" | "xhtml" | "shtml" | "csv" => false
      case _ => true
  }

  /**
   * The media type sent for a file with the given extension, as the table
   * has it: any extension outside the table gets application/octet-stream,
   * and the bmp entry names the top-level type alone. The xlsx entry's
   * subtype holds a space after "officedocument.", as in the table. The
   * switch's cases are tested in their order.
   */
  function GetMimeTypeAsWritten(extention: string): (r: MediaType)
  {
    if extention == "html" then MediaType(Text, Html)
    else if extention == "css" then MediaType(Text, Css)
    else if extention == "js" then MediaType(Text, Javascript)
    else if extention == "htm" || extention == "xhtml" || extention == "shtml" then MediaType(Text, Html)
    else if extention == "txt" then MediaType(Text, Plain)
    else if extention == "png" then MediaType(Image, Png)
    else if extention == "jpeg" || extention == "jpg" || extention == "jpe" then MediaType(Image, Jpeg)
    else if extention == "pdf" then MediaType(Application, Pdf)
    else if extention == "zip" then MediaType(Application, Zip)
    else if extention == "ico" then MediaType(Image, XIcon)
    else if extention == "xml" then MediaType(Text, Xml)
    else if extention == "json" then MediaType(Application, Json)
    else if extention == "rtf" then MediaType(Text, Rtf)
    else if extention == "csv" then MediaType(Text, CommaSeparatedValues)
    else if extention == "doc" || extention == "dot" then MediaType(Application, MsWord)
    else if extention == "docx" then MediaType(Application, WordprocessingDocument)
    else if extention == "xls" || extention == "xla" then MediaType(Application, MsExcel)
    else if extention == "xlsx" then MediaType(Application, SpreadsheetSheet)
    else if extention == "ppt" || extention == "ppz" || extention == "pps" || extention == "pot" then MediaType(Application, MsPowerpoint)
    else if extention == "gif" then MediaType(Image, Gif)
    else if extention == "bmp" then MediaType(Image, NoSubtype)
    else if extention == "wav" then MediaType(Audio, XWav)
    else if extention == "mp2" || extention == "mp3" || extention == "aac" then MediaType(Audio, XMpeg)
    else if extention == "aif" || extention == "aiff" || extention == "aifc" then MediaType(Audio, XAiff)
    else if extention == "mpeg" || extention == "mpg" || extention == "mpe" then MediaType(Video, Mpeg)
    else if extention == "qt" || extention == "mov" then MediaType(Video, Quicktime)
    else if extention == "avi" then MediaType(Video, XMsvideo)
    else if extention == "tiff" || extention == "tif" then MediaType(Image, Tiff)
    else if extention == "swf" || extention == "cab" then MediaType(Application, XShockwaveFlash)
    else if extention == "hlp" || extention == "chm" then MediaType(Application, MsHelp)
    else if extention == "midi" || extention == "mid" then MediaType(Audio, XMidi)
    else OctetStream
  }


  /** The bmp entry renders as "image", with no subtype. */
  lemma BmpTypeHasNoSubtype()
    ensures GetMimeTypeAsWritten("bmp").subtype == NoSubtype
    ensures ToString(GetMimeTypeAsWritten("bmp")) == "image"
  {
  }

  /** GetMimeType with the bmp entry completed to image/bmp: every entry then has a subtype. */
  function GetMimeType(extention: string): (r: MediaType)
    ensures r.subtype != NoSubtype
  {
    if extention == "bmp" then MediaType(Image, Bmp) else GetMimeTypeAsWritten(extention)
  }
}

/** What the media-type table promises, stated over all extensions. */
module FileTypeFacts {
  import opened FileTypes

  /** Exactly the extensions the table lists get something other than application/octet-stream. */
  lemma OctetStreamExactlyForUnlisted(extention: string)
    ensures GetMimeType(extention) == OctetStream <==> !IsKnownExtension(extention)
  {
    if IsKnownExtension(extention) {
      ListedAreNotOctetStream(extention);
    } else {
      UnlistedAreOctetStream(extention);
    }
  }

  lemma ListedAreNotOctetStream(extention: string)
    requires IsKnownExtension(extention)
    ensures GetMimeType(extention) != OctetStream
  {
  }

  /** The table is total: every extension it does not list gets application/octet-stream. */
  lemma UnlistedAreOctetStream(extention: string)
    requires !IsKnownExtension(extention)
    ensures GetMimeType(extention) == OctetStream
  {
  }

  /** Once every entry has a subtype, every header value has the form type/subtype. */
  lemma MediaTypesHaveSubtype(extention: string)
    ensures '/' in ToString(GetMimeType(extention))
  {
    var m := GetMimeType(extention);
    assert ToString(m)[|TopName(m.top)|] == '/';
  }

  /** A file is served as text exactly when its media type announces text. */
  lemma TextFilesHaveTextTypes(fileName: string, extention: string)
    requires |fileName| >= 2
    ensures !FileIsBinary(fileName, extention) <==> AnnouncesText(GetMimeType(extention))
  {
    if IsTextExtension(extention) {
      TextTypes(extention);
    } else {
      BinaryTypes(extention);
    }
  }

  lemma TextTypes(extention: string)
    requires IsTextExtension(extention)
    ensures AnnouncesText(GetMimeType(extention))
  {
  }

  lemma BinaryTypes(extention: string)
    requires !IsTextExtension(extention)
    ensures !AnnouncesText(GetMimeType(extention))
  {
    if !IsKnownExtension(extention) {
      UnlistedAreOctetStream(extention);
    }
  }
}
