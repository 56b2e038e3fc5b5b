/**
 * The open-file dialog's filter (src/main.rs:84 and 124-132): a path is shown
 * when its extension is UTF-8 text equal, ignoring ASCII case, to one of the
 * allowed extensions `m4a`, `mp3` and `flac`. A path with no extension, or with
 * an extension that is not UTF-8, is hidden.
 */
module ExtensionFilter {
  import opened Wrappers
  import opened Paths

  /**
   * `u8::to_ascii_lowercase`: the result is never an upper-case letter; a byte
   * either stays or moves up by 32, and it moves exactly when it is one of 'A'..'Z'.
   */
  function ToAsciiLowercase(b: byte): (r: byte)
    ensures !('A' as byte <= r <= 'Z' as byte)
    ensures r == b || r as int == b as int + 32
    ensures r != b <==> 'A' as byte <= b <= 'Z' as byte
    ensures r < 0x80 <==> b < 0x80
  {
    if 'A' as byte <= b <= 'Z' as byte then b + 32 else b
  }

  /** Lowering twice is lowering once. */
  lemma ToAsciiLowercaseIdempotent(b: byte)
    ensures ToAsciiLowercase(ToAsciiLowercase(b)) == ToAsciiLowercase(b)
  {
  }

  /** Every byte of `s` lowered. */
  function LowerAll(s: OsStr): (r: OsStr)
    ensures |r| == |s|
    ensures forall i :: 0 <= i < |s| ==> r[i] == ToAsciiLowercase(s[i])
  {
    if |s| == 0 then [] else [ToAsciiLowercase(s[0])] + LowerAll(s[1..])
  }

  /** `str::eq_ignore_ascii_case`: same length, and equal byte by byte once both are lowered. */
  predicate EqIgnoreAsciiCase(a: OsStr, b: OsStr) {
    |a| == |b| && forall i :: 0 <= i < |a| ==> ToAsciiLowercase(a[i]) == ToAsciiLowercase(b[i])
  }

  /** ASCII with no upper-case letter: what every allowed extension is written in. */
  predicate IsLowerAscii(s: OsStr) {
    forall i :: 0 <= i < |s| ==> s[i] < 0x80 && !('A' as byte <= s[i] <= 'Z' as byte)
  }

  /** `allowed_exts`, as the application initialises it. */
  const AllowedExts: seq<OsStr> := [AsciiBytes("m4a"), AsciiBytes("mp3"), AsciiBytes("flac")]

  /** `allowed_exts.iter().any(|&e| e.eq_ignore_ascii_case(ext))`, front to back. */
  function AnyMatches(allowed: seq<OsStr>, ext: OsStr): bool {
    |allowed| > 0 && (EqIgnoreAsciiCase(allowed[0], ext) || AnyMatches(allowed[1..], ext))
  }

  /** The filter: `path.extension().and_then(OsStr::to_str).map(any).unwrap_or(false)`. */
  function Accepts(allowed: seq<OsStr>, p: OsStr): bool {
    match Extension(p)
    case None => false
    case Some(e) =>
      match ToStr(e)
      case None => false
      case Some(t) => AnyMatches(allowed, t)
  }

  // ---------------------------------------------------------------- lemmas

  /** Comparing ignoring case is comparing the lowered strings. */
  lemma EqIgnoreAsciiCaseIff(a: OsStr, b: OsStr)
    ensures EqIgnoreAsciiCase(a, b) <==> LowerAll(a) == LowerAll(b)
  {
    if LowerAll(a) == LowerAll(b) {
      assert |a| == |b|;
      forall i | 0 <= i < |a|
        ensures ToAsciiLowercase(a[i]) == ToAsciiLowercase(b[i])
      {
        assert LowerAll(a)[i] == LowerAll(b)[i];
      }
    }
  }

  /** Against a lower-case ASCII word, a match means the lowered extension is that word. */
  lemma MatchLowerAscii(a: OsStr, e: OsStr)
    requires IsLowerAscii(a)
    ensures EqIgnoreAsciiCase(a, e) <==> LowerAll(e) == a
  {
    if EqIgnoreAsciiCase(a, e) {
      forall i | 0 <= i < |a|
        ensures LowerAll(e)[i] == a[i]
      {
        assert ToAsciiLowercase(a[i]) == a[i];
      }
    }
  }

  /** A string whose lowered form is ASCII is itself ASCII, and so valid UTF-8. */
  lemma LoweredAsciiIsUtf8(e: OsStr)
    requires IsAscii(LowerAll(e))
    ensures ValidUtf8(e)
  {
    assert IsAscii(e) by {
      forall i | 0 <= i < |e|
        ensures e[i] < 0x80
      {
        assert LowerAll(e)[i] < 0x80;
      }
    }
    AsciiIsUtf8(e);
  }

  /** `any` finds a match exactly when some allowed extension matches. */
  lemma {:induction false} AnyMatchesIff(allowed: seq<OsStr>, ext: OsStr)
    ensures AnyMatches(allowed, ext) <==> exists k :: 0 <= k < |allowed| && EqIgnoreAsciiCase(allowed[k], ext)
  {
    if |allowed| > 0 {
      AnyMatchesIff(allowed[1..], ext);
      if exists k :: 0 <= k < |allowed| && EqIgnoreAsciiCase(allowed[k], ext) {
        var k :| 0 <= k < |allowed| && EqIgnoreAsciiCase(allowed[k], ext);
        if k > 0 {
          assert allowed[1..][k - 1] == allowed[k];
        }
      }
      if AnyMatches(allowed[1..], ext) {
        var k :| 0 <= k < |allowed[1..]| && EqIgnoreAsciiCase(allowed[1..][k], ext);
        assert allowed[k + 1] == allowed[1..][k];
      }
    }
  }

  /**
   * With an allow-list written in lower-case ASCII, a path is accepted exactly
   * when it has an extension whose lowered form is on the list.
   */
  lemma AcceptsIff(allowed: seq<OsStr>, p: OsStr)
    requires forall k :: 0 <= k < |allowed| ==> IsLowerAscii(allowed[k])
    ensures Accepts(allowed, p) <==> Extension(p).Some? && LowerAll(Extension(p).value) in allowed
  {
    match Extension(p)
    case None =>
    case Some(e) =>
      assert Accepts(allowed, p) == (ValidUtf8(e) && AnyMatches(allowed, e));
      MatchesIffLoweredListed(allowed, e);
  }

  /** An extension is UTF-8 text matching the list exactly when its lowered form is listed. */
  lemma MatchesIffLoweredListed(allowed: seq<OsStr>, e: OsStr)
    requires forall k :: 0 <= k < |allowed| ==> IsLowerAscii(allowed[k])
    ensures ValidUtf8(e) && AnyMatches(allowed, e) <==> LowerAll(e) in allowed
  {
    AnyMatchesIff(allowed, e);
    if LowerAll(e) in allowed {
      var k :| 0 <= k < |allowed| && allowed[k] == LowerAll(e);
      MatchLowerAscii(allowed[k], e);
      LoweredAsciiIsUtf8(e);
    }
    if AnyMatches(allowed, e) {
      var k :| 0 <= k < |allowed| && EqIgnoreAsciiCase(allowed[k], e);
      MatchLowerAscii(allowed[k], e);
    }
  }

  /** The application's filter: the extension, lowered, is `m4a`, `mp3` or `flac`. */
  lemma AcceptsAllowedExts(p: OsStr)
    ensures Accepts(AllowedExts, p) <==>
      Extension(p).Some? &&
      (LowerAll(Extension(p).value) == AsciiBytes("m4a") ||
       LowerAll(Extension(p).value) == AsciiBytes("mp3") ||
       LowerAll(Extension(p).value) == AsciiBytes("flac"))
  {
    AllowedExtsAreLowerAscii();
    AcceptsIff(AllowedExts, p);
    var e := Extension(p);
    assert e.Some? ==> (LowerAll(e.value) in AllowedExts <==>
      LowerAll(e.value) == AllowedExts[0] || LowerAll(e.value) == AllowedExts[1] || LowerAll(e.value) == AllowedExts[2]);
  }

  /** The application's allow-list is written in lower-case ASCII. */
  lemma AllowedExtsAreLowerAscii()
    ensures forall k :: 0 <= k < |AllowedExts| ==> IsLowerAscii(AllowedExts[k])
  {
    assert IsLowerAscii(AllowedExts[0]) && IsLowerAscii(AllowedExts[1]) && IsLowerAscii(AllowedExts[2]);
  }

  /** Whether a path is accepted depends on its extension only up to ASCII case. */
  lemma AcceptsIgnoresCase(p1: OsStr, p2: OsStr)
    requires Extension(p1).Some? && Extension(p2).Some?
    requires EqIgnoreAsciiCase(Extension(p1).value, Extension(p2).value)
    ensures Accepts(AllowedExts, p1) == Accepts(AllowedExts, p2)
  {
    EqIgnoreAsciiCaseIff(Extension(p1).value, Extension(p2).value);
    AcceptsAllowedExts(p1);
    AcceptsAllowedExts(p2);
  }

  /**
   * `dir/stem.ext` has the extension `ext` when the stem is not empty, `ext` has
   * no dot and the name is not `..` (a stem `.` with an empty `ext`).
   */
  lemma ExtensionOfFile(dir: OsStr, stem: OsStr, ext: OsStr)
    requires Slash !in stem && Slash !in ext
    requires |stem| > 0 && Dot !in ext
    requires !(stem == [Dot] && ext == [])
    ensures Extension(dir + [Slash] + (stem + [Dot] + ext)) == Some(ext)
  {
    var name := stem + [Dot] + ext;
    assert Slash !in name by {
      assert forall i :: 0 <= i < |name| ==> name[i] == (if i < |stem| then stem[i] else if i == |stem| then Dot else ext[i - |stem| - 1]);
    }
    if |name| == 2 {
      assert ext == [] && stem == [stem[0]];
      assert name[0] == stem[0] != Dot;
    }
    FileNameAfterDirectory(dir, name);
    assert name[|stem|] == Dot && name[|stem| + 1..] == ext;
    NameExtensionIff(name, ext);
  }

  /** `/music/Song.MP3` is shown: the comparison ignores case. */
  lemma AcceptsUpperCaseMp3()
    ensures Accepts(AllowedExts, AsciiBytes("/music") + [Slash] + (AsciiBytes("Song") + [Dot] + AsciiBytes("MP3")))
  {
    var ext := AsciiBytes("MP3");
    assert Dot !in ext && Slash !in ext by {
      assert ext[0] == 'M' as byte && ext[1] == 'P' as byte && ext[2] == '3' as byte;
    }
    var stem := AsciiBytes("Song");
    assert Slash !in stem by {
      assert stem[0] == 'S' as byte && stem[1] == 'o' as byte && stem[2] == 'n' as byte && stem[3] == 'g' as byte;
    }
    ExtensionOfFile(AsciiBytes("/music"), stem, ext);
    assert LowerAll(ext) == AsciiBytes("mp3");
    AcceptsAllowedExts(AsciiBytes("/music") + [Slash] + (stem + [Dot] + ext));
  }

  /** `/music/song.ogg` is hidden: `ogg` is not on the list. */
  lemma RejectsOgg()
    ensures !Accepts(AllowedExts, AsciiBytes("/music") + [Slash] + (AsciiBytes("song") + [Dot] + AsciiBytes("ogg")))
  {
    var ext := AsciiBytes("ogg");
    assert Dot !in ext && Slash !in ext by {
      assert ext[0] == 'o' as byte && ext[1] == 'g' as byte && ext[2] == 'g' as byte;
    }
    var stem := AsciiBytes("song");
    assert Slash !in stem by {
      assert stem[0] == 's' as byte && stem[1] == 'o' as byte && stem[2] == 'n' as byte && stem[3] == 'g' as byte;
    }
    ExtensionOfFile(AsciiBytes("/music"), stem, ext);
    assert LowerAll(ext)[0] == 'o' as byte;
    AcceptsAllowedExts(AsciiBytes("/music") + [Slash] + (stem + [Dot] + ext));
  }

  /** An extension that is not UTF-8 is hidden, even before it is compared. */
  lemma RejectsNonUtf8Extension(dir: OsStr, stem: OsStr)
    requires Slash !in stem && |stem| > 0
    ensures !Accepts(AllowedExts, dir + [Slash] + (stem + [Dot] + [0x6D, 0x70, 0xB3]))
  {
    ExtensionOfFile(dir, stem, [0x6D, 0x70, 0xB3]);
  }
}
