/**
 * The older, single-file server duplo.py: its own `clean_filename`, which
 * only substitutes characters and reserved device names, and its
 * `check_retention` sweep over the storage directory.
 */
module Duplo {
  import opened Text
  import opened Disk

  const SpecialMarker := "SPECIAL"

  /** The character class `[\\:'\[\]/",<>&^$+*?;]`: no `|` and no control characters. */
  predicate IsForbidden(c: char)
  {
    || c == '\\' || c == ':' || c == '\'' || c == '[' || c == ']' || c == '/'
    || c == '"' || c == ',' || c == '<' || c == '>' || c == '&' || c == '^'
    || c == '$' || c == '+' || c == '*' || c == '?' || c == ';'
  }

  /** The first substitution: every forbidden character becomes `_`. */
  function ReplaceForbidden(s: string): (r: string)
    ensures |r| == |s|
    ensures forall i :: 0 <= i < |s| ==> !IsForbidden(r[i])
    ensures forall i :: 0 <= i < |s| ==> !IsForbidden(s[i]) ==> r[i] == s[i]
    ensures forall i :: 0 <= i < |s| ==> IsForbidden(s[i]) ==> r[i] == '_'
  {
    ReplaceChars(s, IsForbidden)
  }

  /**
   * Length of the stem matched by `^(CON|PRN|AUX|NUL|COM\d|LPT\d)$`
   * (IGNORECASE), or 0. Since `$` also matches before a final newline, the
   * whole name or the whole name but a final `\n` must be the stem.
   */
  function SpecialStemLength(s: string): (k: nat)
    ensures k == 0 || k == 3 || k == 4
    ensures k <= |s|
    ensures k > 0 ==> IsReservedStem(s[..k]) && DollarMatchesAt(s, k)
    ensures k > 0 <==>
      IsReservedStem(s) || (s != [] && s[|s| - 1] == '\n' && IsReservedStem(s[..|s| - 1]))
  {
    if |s| >= 3 && IsReservedStem(s[..3]) && DollarMatchesAt(s, 3) then 3
    else if |s| >= 4 && IsReservedStem(s[..4]) && DollarMatchesAt(s, 4) then 4
    else
      assert IsReservedStem(s) ==> s[..|s|] == s;
      0
  }

  /**
   * `clean_filename` of duplo.py: replace the forbidden characters, then
   * replace a name that is exactly a reserved stem (perhaps followed by a
   * final newline) by `SPECIAL`. It never shortens a name.
   */
  function CleanFilename(filename: string): (r: string)
    ensures |r| >= |filename|
    ensures forall i :: 0 <= i < |r| ==> !IsForbidden(r[i])
    ensures r == ReplaceForbidden(filename) || r == SpecialMarker || r == SpecialMarker + "\n"
  {
    var s := ReplaceForbidden(filename);
    var k := SpecialStemLength(s);
    if k == 0 then s
    else
      assert s[k..] == [] || s[k..] == "\n";
      SpecialMarker + s[k..]
  }

  /** A reserved stem has no forbidden character, so the first substitution keeps it. */
  lemma ReservedStemKept(stem: string, tail: string)
    requires IsReservedStem(stem)
    requires forall i :: 0 <= i < |tail| ==> !IsForbidden(tail[i])
    ensures ReplaceForbidden(stem + tail) == stem + tail
  {
  }

  /** `CON`, `PRN`, `AUX` and `NUL` are not the prefix of a numbered device name. */
  lemma ThreeLetterStemIsNotNumbered(stem: string)
    requires IsReservedStem(stem) && |stem| == 3
    ensures !MatchesIgnoreCase(stem, "COM") && !MatchesIgnoreCase(stem, "LPT")
  {
    var c := AsciiUpper(stem[0]);
    if c == 'C' {
      assert AsciiUpper(stem[2]) == 'N';
    } else {
      assert c == 'P' || c == 'A' || c == 'N';
    }
  }

  /** A reserved stem in any case, alone or with a final newline, is replaced by `SPECIAL`. */
  lemma {:induction false} SpecialNameReplaced(stem: string)
    requires IsReservedStem(stem)
    ensures CleanFilename(stem) == SpecialMarker
    ensures CleanFilename(stem + "\n") == SpecialMarker + "\n"
  {
    ReservedStemKept(stem, []);
    assert stem + [] == stem;
    assert SpecialStemLength(stem) == |stem|;
    ReservedStemKept(stem, "\n");
    var t := stem + "\n";
    assert t[..|t| - 1] == stem;
    assert SpecialStemLength(t) == |stem| by {
      if |stem| == 4 {
        assert !IsReservedStem(t[..3]) by {
          assert t[..3] == stem[..3];
          if MatchesIgnoreCase(stem[..3], "COM") {
            assert AsciiUpper(t[2]) == 'M';
          } else {
            assert AsciiUpper(t[0]) == 'L';
          }
        }
      }
    }
    assert t[|stem|..] == "\n";
  }

  /**
   * Unlike the library's cleaner, this one leaves a reserved stem with an
   * extension alone: `con.txt` stays `con.txt`.
   */
  lemma {:induction false} ReservedStemWithExtensionKept(stem: string, ext: string)
    requires IsReservedStem(stem)
    requires ext != [] && ext != "\n"
    requires forall i :: 0 <= i < |ext| ==> !IsForbidden(ext[i])
    ensures CleanFilename(stem + ext) == stem + ext
  {
    var s := stem + ext;
    ReservedStemKept(stem, ext);
    assert SpecialStemLength(s) == 0 by {
      if IsReservedStem(s) {
        assert |s| == 3 || |s| == 4;
        assert |stem| == 3 && |ext| == 1;
        assert IsAsciiDigit(s[3]) && s[..3] == stem;
        ThreeLetterStemIsNotNumbered(stem);
        assert false;
      }
      if s != [] && s[|s| - 1] == '\n' && IsReservedStem(s[..|s| - 1]) {
        var u := s[..|s| - 1];
        assert u[..|stem|] == stem;
        assert |u| == 3 || |u| == 4;
        if |u| == |stem| {
          assert false;
        }
        assert |stem| == 3 && |u| == 4;
        assert u[..3] == stem;
        ThreeLetterStemIsNotNumbered(stem);
        assert false;
      }
    }
  }

  /**
   * A name without forbidden characters that is not a reserved stem comes
   * back unchanged, whatever its length, its trailing dots or spaces, its
   * control characters, or whether it is empty.
   */
  lemma AllowedNameKept(s: string)
    requires forall i :: 0 <= i < |s| ==> !IsForbidden(s[i])
    requires !IsReservedStem(s)
    requires !(s != [] && s[|s| - 1] == '\n' && IsReservedStem(s[..|s| - 1]))
    ensures CleanFilename(s) == s
  {
    assert ReplaceForbidden(s) == s;
  }

  /** `SPECIAL` is too long to be a reserved stem, with or without a final newline. */
  lemma MarkerIsNotSpecial()
    ensures SpecialStemLength(SpecialMarker) == 0
    ensures SpecialStemLength(SpecialMarker + "\n") == 0
  {
  }

  /** The names left unchanged are exactly those of `AllowedNameKept`. */
  lemma FixedPoints(s: string)
    ensures CleanFilename(s) == s <==>
      && (forall i :: 0 <= i < |s| ==> !IsForbidden(s[i]))
      && !IsReservedStem(s)
      && !(s != [] && s[|s| - 1] == '\n' && IsReservedStem(s[..|s| - 1]))
  {
    if CleanFilename(s) == s {
      var t := ReplaceForbidden(s);
      assert t == s;
      MarkerIsNotSpecial();
      assert SpecialStemLength(t) == 0;
    } else {
      if forall i :: 0 <= i < |s| ==> !IsForbidden(s[i]) {
        assert ReplaceForbidden(s) == s;
      }
    }
  }

  /** Idempotence: a cleaned name is cleaned again to itself. */
  lemma CleanFilenameIdempotent(filename: string)
    ensures CleanFilename(CleanFilename(filename)) == CleanFilename(filename)
  {
    var r := CleanFilename(filename);
    MarkerIsNotSpecial();
    assert ReplaceForbidden(r) == r;
    if r != SpecialMarker && r != SpecialMarker + "\n" {
      assert SpecialStemLength(ReplaceForbidden(filename)) == 0;
    }
  }

  /**
   * `check_retention`: walk the directory listing and delete every regular
   * file whose age exceeds `maxStorageSeconds` at `now`.
   */
  method CheckRetention(storage: Directory, now: int, maxStorageSeconds: int)
    requires storage.Valid()
    modifies storage`entries
    ensures storage.Valid()
    ensures storage.entries == AfterRetention(old(storage.entries), now, maxStorageSeconds)
  {
    ghost var original := storage.entries;
    var listing := storage.entries.Keys;
    while listing != {}
      invariant storage.Valid()
      invariant listing <= original.Keys
      invariant storage.entries == map n | n in original &&
        (n in listing || !Expired(original[n], now, maxStorageSeconds)) :: original[n]
      decreases listing
    {
      var file :| file in listing;
      if IsFile(storage.entries, file) {
        var age := now - storage.entries[file].mtime;
        if age > maxStorageSeconds {
          var removed := storage.Remove(file);
        }
      }
      listing := listing - {file};
    }
  }
}
