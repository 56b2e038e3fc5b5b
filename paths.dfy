/**
 * Unix paths as raw bytes, and the two path queries the file filter uses:
 * `Path::extension` (through `Path::file_name`) and `OsStr::to_str`.
 *
 * A path is split at '/'. Like `Path::components`, the file name ignores empty
 * pieces (repeated or trailing separators) and `.` pieces, and there is no file
 * name when the last remaining piece is `..` or nothing remains (the root, `.`,
 * the empty path). The extension is what follows the file name's last '.',
 * unless that dot is the name's first byte (a hidden file such as `.mp3` has
 * no extension).
 */
module Paths {
  import opened Wrappers

  newtype byte = b: int | 0 <= b < 256

  /** An OS string: on Unix, any byte sequence. */
  type OsStr = seq<byte>

  const Slash: byte := 0x2F
  const Dot: byte := 0x2E

  /** ASCII text as the bytes that encode it. */
  function AsciiBytes(s: string): (b: OsStr)
    requires forall i :: 0 <= i < |s| ==> s[i] as int < 128
    ensures |b| == |s| && forall i :: 0 <= i < |s| ==> b[i] as int == s[i] as int
  {
    seq(|s|, i requires 0 <= i < |s| => s[i] as int as byte)
  }

  // ---------------------------------------------------------------- components

  /** The path cut at every '/', empty pieces included: always at least one piece. */
  function Split(p: OsStr): (parts: seq<OsStr>)
    ensures |parts| >= 1
    ensures forall k :: 0 <= k < |parts| ==> Slash !in parts[k]
  {
    if |p| == 0 then [[]]
    else
      var rest := Split(p[1..]);
      if p[0] == Slash then [[]] + rest
      else [[p[0]] + rest[0]] + rest[1..]
  }

  /** The pieces glued back together with '/': the partner of Split. */
  function Join(parts: seq<OsStr>): OsStr
    requires |parts| >= 1
  {
    if |parts| == 1 then parts[0] else parts[0] + [Slash] + Join(parts[1..])
  }

  /** The last piece that names a file or directory, skipping empty and `.` pieces; none if it is `..`. */
  function LastNormal(parts: seq<OsStr>): (r: Option<OsStr>)
    ensures r.Some? ==> r.value in parts && r.value != [] && r.value != [Dot] && r.value != [Dot, Dot]
  {
    if |parts| == 0 then None
    else
      var last := parts[|parts| - 1];
      if last == [] || last == [Dot] then LastNormal(parts[..|parts| - 1])
      else if last == [Dot, Dot] then None
      else Some(last)
  }

  /** `Path::file_name`: a non-empty name other than `.` and `..`, without separators. */
  function FileName(p: OsStr): (r: Option<OsStr>)
    ensures r.Some? ==> r.value != [] && r.value != [Dot] && r.value != [Dot, Dot] && Slash !in r.value
  {
    LastNormal(Split(p))
  }

  // ---------------------------------------------------------------- extension

  /** Where the last '.' of `s` is, if it has one. */
  function LastDot(s: OsStr): (r: Option<nat>)
    ensures r.Some? ==> r.value < |s| && s[r.value] == Dot && Dot !in s[r.value + 1..]
    ensures r.None? ==> Dot !in s
  {
    if |s| == 0 then None
    else if s[|s| - 1] == Dot then Some(|s| - 1)
    else
      var r := LastDot(s[..|s| - 1]);
      assert s == s[..|s| - 1] + [s[|s| - 1]];
      if r.Some? then
        assert s[r.value + 1..] == s[..|s| - 1][r.value + 1..] + [s[|s| - 1]];
        r
      else r
  }

  /** The extension of a file name: after the last '.', unless that '.' starts the name. */
  function NameExtension(name: OsStr): Option<OsStr> {
    if name == [Dot, Dot] then None
    else
      match LastDot(name)
      case None => None
      case Some(i) => if i == 0 then None else Some(name[i + 1..])
  }

  /** `Path::extension`. */
  function Extension(p: OsStr): Option<OsStr> {
    match FileName(p)
    case None => None
    case Some(name) => NameExtension(name)
  }

  // ---------------------------------------------------------------- UTF-8

  predicate IsContinuation(b: byte) {
    0x80 <= b <= 0xBF
  }

  /** Well-formed UTF-8 (the byte sequences of RFC 3629, section 4): no overlong forms, no surrogates, nothing past U+10FFFF. */
  predicate ValidUtf8(s: OsStr)
    decreases |s|
  {
    if |s| == 0 then true
    else if s[0] < 0x80 then ValidUtf8(s[1..])
    else if 0xC2 <= s[0] <= 0xDF then
      |s| >= 2 && IsContinuation(s[1]) && ValidUtf8(s[2..])
    else if 0xE0 <= s[0] <= 0xEF then
      |s| >= 3 && IsContinuation(s[1]) && IsContinuation(s[2])
      && (s[0] == 0xE0 ==> s[1] >= 0xA0)
      && (s[0] == 0xED ==> s[1] <= 0x9F)
      && ValidUtf8(s[3..])
    else if 0xF0 <= s[0] <= 0xF4 then
      |s| >= 4 && IsContinuation(s[1]) && IsContinuation(s[2]) && IsContinuation(s[3])
      && (s[0] == 0xF0 ==> s[1] >= 0x90)
      && (s[0] == 0xF4 ==> s[1] <= 0x8F)
      && ValidUtf8(s[4..])
    else false
  }

  /** `OsStr::to_str`: the same bytes as a `str` when they are UTF-8, otherwise nothing.
   * Text it accepts never holds the bytes 0xC0 or 0xC1, which could only start an overlong encoding. */
  function ToStr(s: OsStr): (r: Option<OsStr>)
    ensures r.Some? <==> ValidUtf8(s)
    ensures r.Some? ==> r.value == s
    ensures r.Some? ==> 0xC0 !in s && 0xC1 !in s
  {
    if ValidUtf8(s) then
      Utf8ExcludedBytes(s);
      Some(s)
    else None
  }

  predicate IsAscii(s: OsStr) {
    forall i :: 0 <= i < |s| ==> s[i] < 0x80
  }

  // ---------------------------------------------------------------- lemmas

  /** Gluing the pieces back together gives the path. */
  lemma {:induction false} SplitJoin(p: OsStr)
    ensures Join(Split(p)) == p
  {
    if |p| > 0 {
      var rest := Split(p[1..]);
      SplitJoin(p[1..]);
      if p[0] == Slash {
        assert Split(p) == [[]] + rest;
        assert Split(p)[1..] == rest;
      } else {
        var parts := Split(p);
        assert parts == [[p[0]] + rest[0]] + rest[1..];
        if |rest| == 1 {
          assert parts == [[p[0]] + rest[0]];
        } else {
          assert parts[1..] == rest[1..];
          assert Join(rest) == rest[0] + [Slash] + Join(rest[1..]);
        }
      }
    }
  }

  /** A '/' in front opens a new, empty first piece. */
  lemma SplitConsSlash(q: OsStr)
    ensures Split([Slash] + q) == [[]] + Split(q)
  {
    assert ([Slash] + q)[1..] == q;
  }

  /** Any other byte in front joins the first piece. */
  lemma SplitConsByte(x: byte, q: OsStr)
    requires x != Slash
    ensures Split([x] + q) == [[x] + Split(q)[0]] + Split(q)[1..]
  {
    assert ([x] + q)[1..] == q;
  }

  /** Joining a byte to the first piece commutes with appending more pieces. */
  lemma GlueFront(x: byte, left: seq<OsStr>, right: seq<OsStr>)
    requires |left| >= 1
    ensures [[x] + (left + right)[0]] + (left + right)[1..] == ([[x] + left[0]] + left[1..]) + right
  {
    assert (left + right)[0] == left[0];
    assert (left + right)[1..] == left[1..] + right;
  }

  /** Cutting at a '/' between `a` and `b` gives the pieces of `a` followed by the pieces of `b`. */
  lemma {:induction false} SplitAtSlash(a: OsStr, b: OsStr)
    ensures Split(a + [Slash] + b) == Split(a) + Split(b)
  {
    var right := Split(b);
    if |a| == 0 {
      assert a + [Slash] + b == [Slash] + b;
      SplitConsSlash(b);
    } else {
      var x, t := a[0], a[1..];
      var q := t + [Slash] + b;
      assert a + [Slash] + b == [x] + q;
      assert a == [x] + t;
      SplitAtSlash(t, b);
      var left := Split(t);
      assert Split(q) == left + right;
      if x == Slash {
        SplitConsSlash(q);
        SplitConsSlash(t);
      } else {
        SplitConsByte(x, q);
        SplitConsByte(x, t);
        GlueFront(x, left, right);
      }
    }
  }

  /** A piece without separators is a single component. */
  lemma {:induction false} SplitNoSlash(b: OsStr)
    requires Slash !in b
    ensures Split(b) == [b]
  {
    if |b| > 0 {
      assert Slash !in b[1..] by {
        assert forall k :: 0 <= k < |b[1..]| ==> b[1..][k] == b[k + 1];
      }
      SplitNoSlash(b[1..]);
      assert [b[0]] + b[1..] == b;
    }
  }

  /** The file name is the last component: the directory part in front does not matter. */
  lemma FileNameAfterDirectory(dir: OsStr, name: OsStr)
    requires Slash !in name && name != [] && name != [Dot] && name != [Dot, Dot]
    ensures FileName(dir + [Slash] + name) == Some(name)
  {
    SplitAtSlash(dir, name);
    SplitNoSlash(name);
    var parts := Split(dir) + [name];
    assert parts[|parts| - 1] == name;
  }

  /** A trailing '/' does not change the file name, and so not the extension either. */
  lemma TrailingSlashIgnored(p: OsStr)
    ensures FileName(p + [Slash]) == FileName(p)
    ensures Extension(p + [Slash]) == Extension(p)
  {
    SplitAtSlash(p, []);
    assert p + [Slash] + [] == p + [Slash];
    assert Split([]) == [[]];
    var parts := Split(p) + [[]];
    assert parts[..|parts| - 1] == Split(p);
  }

  /** A '.' followed by no other '.' is the last one. */
  lemma LastDotUnique(s: OsStr, i: nat)
    requires i < |s| && s[i] == Dot && Dot !in s[i + 1..]
    ensures LastDot(s) == Some(i)
  {
    assert s[i] in s;
  }

  /** The extension is the file name's tail after a '.' that is not its first byte and is followed by no other '.'. */
  lemma NameExtensionIff(name: OsStr, e: OsStr)
    ensures NameExtension(name) == Some(e) <==>
      name != [Dot, Dot] &&
      exists i :: 0 < i < |name| && name[i] == Dot && e == name[i + 1..] && Dot !in e
  {
    if NameExtension(name) == Some(e) {
      var i := LastDot(name).value;
      assert 0 < i < |name| && name[i] == Dot && e == name[i + 1..] && Dot !in e;
    }
    if name != [Dot, Dot] && exists i :: 0 < i < |name| && name[i] == Dot && e == name[i + 1..] && Dot !in e {
      var i :| 0 < i < |name| && name[i] == Dot && e == name[i + 1..] && Dot !in e;
      LastDotUnique(name, i);
    }
  }

  /** The bytes 0xC0, 0xC1 and 0xF5..0xFF never occur in UTF-8 (RFC 3629, section 1). */
  lemma {:induction false} Utf8ExcludedBytes(s: OsStr)
    requires ValidUtf8(s)
    ensures forall i :: 0 <= i < |s| ==> s[i] != 0xC0 && s[i] != 0xC1 && s[i] < 0xF5
    decreases |s|
  {
    if |s| > 0 {
      var k := if s[0] < 0x80 then 1 else if s[0] <= 0xDF then 2 else if s[0] <= 0xEF then 3 else 4;
      assert k <= |s| && ValidUtf8(s[k..]);
      Utf8ExcludedBytes(s[k..]);
      forall i | 0 <= i < |s|
        ensures s[i] != 0xC0 && s[i] != 0xC1 && s[i] < 0xF5
      {
        if i >= k {
          assert s[i] == s[k..][i - k];
        }
      }
    }
  }

  /** Text made only of ASCII bytes is valid UTF-8. */
  lemma {:induction false} AsciiIsUtf8(s: OsStr)
    requires IsAscii(s)
    ensures ValidUtf8(s)
  {
    if |s| > 0 {
      AsciiIsUtf8(s[1..]);
    }
  }

  /** `song.MP3` has the extension `MP3`: the case is kept. */
  lemma ExtensionOfMixedCase()
    ensures NameExtension(AsciiBytes("song.MP3")) == Some(AsciiBytes("MP3"))
  {
    var name := AsciiBytes("song.MP3");
    NameExtensionIff(name, AsciiBytes("MP3"));
    assert name[4] == Dot;
    assert name[5..] == AsciiBytes("MP3");
  }

  /** `.mp3` is a hidden file without extension. */
  lemma HiddenFileHasNoExtension()
    ensures NameExtension(AsciiBytes(".mp3")) == None
  {
    var name := AsciiBytes(".mp3");
    assert name[3] != Dot && name[2] != Dot && name[1] != Dot && name[0] == Dot;
  }

  /** Only the last dot counts: `a.mp3.bak` has the extension `bak`. */
  lemma ExtensionAfterLastDot()
    ensures NameExtension(AsciiBytes("a.mp3.bak")) == Some(AsciiBytes("bak"))
  {
    var name := AsciiBytes("a.mp3.bak");
    var ext := AsciiBytes("bak");
    assert name[6..] == ext by {
      assert |name[6..]| == 3 == |ext|;
      assert name[6] == ext[0] && name[7] == ext[1] && name[8] == ext[2];
    }
    assert Dot !in ext by {
      assert ext[0] != Dot && ext[1] != Dot && ext[2] != Dot;
    }
    assert name[5] == Dot;
    NameExtensionIff(name, ext);
  }

  /** A name ending in a dot has the empty extension. */
  lemma TrailingDotGivesEmptyExtension()
    ensures NameExtension(AsciiBytes("end.")) == Some([])
  {
    NameExtensionIff(AsciiBytes("end."), []);
    assert AsciiBytes("end.")[3] == Dot;
  }

  /** A byte that never occurs in UTF-8 (0xFF), an overlong encoding of '/' and an encoded surrogate (U+D800) are not UTF-8. */
  lemma InvalidUtf8Examples()
    ensures !ValidUtf8([0xFF]) && !ValidUtf8([0xC0, 0xAF]) && !ValidUtf8([0xED, 0xA0, 0x80])
  {
  }
}
