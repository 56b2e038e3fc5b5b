/**
 * Container type names (`file_type_to_str`, src/main.rs:260-276).
 *
 * The tag library reports a file's container as an enumeration. Twelve of its
 * members get a fixed lower-case name; every other member (the library's
 * `Custom` kind and anything it adds later) falls through to "unknown".
 */
module FileTypes {
  import opened Wrappers

  /** The tag library's container kinds; `Custom` stands for every kind the match does not list. */
  datatype FileType =
    | Aac | Aiff | Ape | Flac | Mpeg | Mp4 | Mpc | Opus | Vorbis | Speex | Wav | WavPack
    | Custom(name: string)

  const Unknown: string := "unknown"

  predicate IsLowerAlnum(s: string) {
    forall i :: 0 <= i < |s| ==> 'a' <= s[i] <= 'z' || '0' <= s[i] <= '9'
  }

  /** `file_type_to_str`: the display name of a container type. */
  function FileTypeToStr(ft: FileType): (s: string)
    ensures s == Unknown <==> ft.Custom?
    ensures 2 <= |s| <= 7 && IsLowerAlnum(s)
  {
    match ft
    case Aac => "aac"
    case Aiff => "aiff"
    case Ape => "ape"
    case Flac => "flac"
    case Mpeg => "mp3"
    case Mp4 => "mp4"
    case Mpc => "mpc"
    case Opus => "opus"
    case Vorbis => "ogg"
    case Speex => "spx"
    case Wav => "wav"
    case WavPack => "wv"
    case Custom(_) => Unknown
  }

  /** The listed container type a display name stands for, if any: the partner of FileTypeToStr. */
  function FileTypeFromStr(s: string): (r: Option<FileType>)
    ensures r.Some? ==> !r.value.Custom?
  {
    if s == "aac" then Some(Aac)
    else if s == "aiff" then Some(Aiff)
    else if s == "ape" then Some(Ape)
    else if s == "flac" then Some(Flac)
    else if s == "mp3" then Some(Mpeg)
    else if s == "mp4" then Some(Mp4)
    else if s == "mpc" then Some(Mpc)
    else if s == "opus" then Some(Opus)
    else if s == "ogg" then Some(Vorbis)
    else if s == "spx" then Some(Speex)
    else if s == "wav" then Some(Wav)
    else if s == "wv" then Some(WavPack)
    else None
  }

  /** Every listed container type is recovered from its name; the fallback name recovers none. */
  lemma FileTypeNameRoundTrip(ft: FileType)
    ensures !ft.Custom? ==> FileTypeFromStr(FileTypeToStr(ft)) == Some(ft)
    ensures ft.Custom? ==> FileTypeFromStr(FileTypeToStr(ft)) == None
  {
  }

  /** A name that stands for a listed type is exactly that type's name. */
  lemma FileTypeFromStrSound(s: string)
    ensures FileTypeFromStr(s).Some? ==> FileTypeToStr(FileTypeFromStr(s).value) == s
  {
  }

  /** The twelve names are pairwise distinct. */
  lemma FileTypeNamesDistinct(a: FileType, b: FileType)
    requires !a.Custom? && !b.Custom?
    ensures FileTypeToStr(a) == FileTypeToStr(b) <==> a == b
  {
    if FileTypeToStr(a) == FileTypeToStr(b) {
      FileTypeNameRoundTrip(a);
      FileTypeNameRoundTrip(b);
    }
  }
}
