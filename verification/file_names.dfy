/**
 * `clean_filename` of lib_file_storage.py: the canonicaliser that turns an
 * untrusted name into the disk name. Five steps in this order: keep the
 * first 250 characters, strip trailing dots and spaces, replace forbidden
 * characters by `_`, rewrite a reserved device stem to `DEV` keeping the
 * rest, and replace an empty result by `EMPTY`.
 */
module FileNames {
  import opened Text

  const MaxNameLength := 250
  const DeviceMarker := "DEV"
  const EmptyPlaceholder := "EMPTY"

  /** The character class `[\\:'\[\]/",<>&^$+*?;|\x00-\x1F]`. */
  predicate IsForbidden(c: char)
  {
    || c == '\\' || c == ':' || c == '\'' || c == '[' || c == ']' || c == '/'
    || c == '"' || c == ',' || c == '<' || c == '>' || c == '&' || c == '^'
    || c == '$' || c == '+' || c == '*' || c == '?' || c == ';' || c == '|'
    || c as int <= 0x1F
  }

  /** The characters that `rstrip('. ')` removes. */
  predicate IsStrippable(c: char)
  {
    c == '.' || c == ' '
  }

  /** Step 1, `s[:250]`. */
  function Truncate(s: string): (r: string)
    ensures |r| <= MaxNameLength
    ensures r <= s
    ensures |s| <= MaxNameLength ==> r == s
    ensures |s| > MaxNameLength ==> |r| == MaxNameLength
  {
    if |s| <= MaxNameLength then s else s[..MaxNameLength]
  }

  /** Step 2, `s.rstrip('. ')`: the longest prefix that does not end in a dot or a space. */
  function RStripDotsSpaces(s: string): (r: string)
    ensures r <= s
    ensures r == [] || !IsStrippable(r[|r| - 1])
    ensures forall i :: |r| <= i < |s| ==> IsStrippable(s[i])
  {
    if s != [] && IsStrippable(s[|s| - 1]) then RStripDotsSpaces(s[..|s| - 1]) else s
  }

  /** Step 3, the forbidden-character substitution. */
  function ReplaceForbidden(s: string): (r: string)
    ensures |r| == |s|
    ensures forall i :: 0 <= i < |s| ==> !IsForbidden(r[i])
    ensures forall i :: 0 <= i < |s| ==> !IsForbidden(s[i]) ==> r[i] == s[i]
    ensures forall i :: 0 <= i < |s| ==> IsForbidden(s[i]) ==> r[i] == '_'
  {
    ReplaceChars(s, IsForbidden)
  }

  /**
   * Length of the stem matched by `^(CON|PRN|AUX|NUL|COM\d|LPT\d)($|\..*)`
   * (IGNORECASE): 3 or 4, or 0 when the pattern does not match `s`.
   * The 3-letter alternatives come first, as in the pattern.
   */
  function DeviceStemLength(s: string): (k: nat)
    ensures k == 0 || k == 3 || k == 4
    ensures k <= |s|
    ensures k > 0 ==> IsReservedStem(s[..k])
    ensures k > 0 ==> DollarMatchesAt(s, k) || (k < |s| && s[k] == '.')
  {
    if |s| >= 3 && IsReservedStem(s[..3]) && (DollarMatchesAt(s, 3) || (|s| > 3 && s[3] == '.')) then 3
    else if |s| >= 4 && IsReservedStem(s[..4]) && (DollarMatchesAt(s, 4) || (|s| > 4 && s[4] == '.')) then 4
    else 0
  }

  /** Step 4, the device-name substitution: the stem becomes `DEV`, the rest is kept. */
  function RewriteDeviceName(s: string): (r: string)
    ensures |r| <= |s|
    ensures DeviceStemLength(r) == 0
    ensures DeviceStemLength(s) == 0 ==> r == s
    ensures DeviceStemLength(s) > 0 ==>
      |r| >= 3 && r[..3] == DeviceMarker && r[3..] == s[DeviceStemLength(s)..]
    ensures (forall i :: 0 <= i < |s| ==> !IsForbidden(s[i])) ==>
      forall i :: 0 <= i < |r| ==> !IsForbidden(r[i])
    ensures s != [] ==> r != [] && (r[|r| - 1] == s[|s| - 1] || r == DeviceMarker)
  {
    var k := DeviceStemLength(s);
    if k == 0 then s
    else
      MarkedNameKeepsRest(s[k..]);
      DeviceMarker + s[k..]
  }

  /** `DEV` followed by any rest is not a device name, and keeps the rest character for character. */
  lemma MarkedNameKeepsRest(rest: string)
    ensures var r := DeviceMarker + rest;
      && DeviceStemLength(r) == 0
      && r[3..] == rest
      && (forall i :: 3 <= i < |r| ==> r[i] == rest[i - 3])
      && forall i :: 0 <= i < 3 ==> !IsForbidden(r[i])
  {
    var r := DeviceMarker + rest;
    assert r[..3] == DeviceMarker;
    assert !IsReservedStem(r[..3]) by { assert AsciiUpper(r[0]) == 'D'; }
    assert |r| >= 4 ==> !IsReservedStem(r[..4]) by {
      if |r| >= 4 { assert r[..4][..3] == r[..3]; }
    }
  }

  /** The properties every disk name has. */
  predicate IsCleanName(s: string)
  {
    && 0 < |s| <= MaxNameLength
    && (forall i :: 0 <= i < |s| ==> !IsForbidden(s[i]))
    && !IsStrippable(s[|s| - 1])
    && DeviceStemLength(s) == 0
  }

  /** `clean_filename`: total, never longer than 250, never empty, and a fixed point of itself. */
  function CleanFilename(filename: string): (r: string)
    ensures IsCleanName(r)
  {
    var s2 := RStripDotsSpaces(Truncate(filename));
    var s4 := RewriteDeviceName(ReplaceForbidden(s2));
    if s4 == [] then
      PlaceholderIsClean();
      EmptyPlaceholder
    else
      SanitisedIsClean(s2);
      s4
  }

  /** Steps 3 and 4 applied to a stripped name of at most 250 characters give a clean name or nothing. */
  lemma SanitisedIsClean(s2: string)
    requires |s2| <= MaxNameLength
    requires s2 == [] || !IsStrippable(s2[|s2| - 1])
    ensures var s4 := RewriteDeviceName(ReplaceForbidden(s2)); s4 == [] || IsCleanName(s4)
  {
  }

  /** The placeholder for an empty result is itself a clean name. */
  lemma PlaceholderIsClean()
    ensures IsCleanName(EmptyPlaceholder)
  {
  }

  /** Steps 1 to 3 leave a name alone when it is short, has no forbidden character and no trailing dot or space. */
  lemma FirstStepsKeepAllowedName(s: string)
    requires |s| <= MaxNameLength
    requires s == [] || !IsStrippable(s[|s| - 1])
    requires forall i :: 0 <= i < |s| ==> !IsForbidden(s[i])
    ensures ReplaceForbidden(RStripDotsSpaces(Truncate(s))) == s
  {
  }

  /** A clean name is left exactly as it is. */
  lemma CleanNameIsFixedPoint(s: string)
    requires IsCleanName(s)
    ensures CleanFilename(s) == s
  {
    FirstStepsKeepAllowedName(s);
  }

  /** The names `clean_filename` leaves alone are exactly the clean names. */
  lemma FixedPointsAreCleanNames(s: string)
    ensures CleanFilename(s) == s <==> IsCleanName(s)
  {
    if IsCleanName(s) {
      CleanNameIsFixedPoint(s);
    }
  }

  /** Idempotence: the integrity check of `_canonize_file` can never fail. */
  lemma CleanFilenameIdempotent(filename: string)
    ensures CleanFilename(CleanFilename(filename)) == CleanFilename(filename)
  {
    CleanNameIsFixedPoint(CleanFilename(filename));
  }

  /** The device-name pattern matches exactly the reserved stem in front of an extension. */
  lemma DeviceStemFound(stem: string, ext: string)
    requires IsReservedStem(stem)
    requires ext == [] || ext[0] == '.'
    ensures DeviceStemLength(stem + ext) == |stem|
  {
  }

  /**
   * A reserved stem, in any case, alone or followed by an extension that
   * is already clean, becomes `DEV` with the extension kept.
   */
  lemma DeviceNameKeepsExtension(stem: string, ext: string)
    requires IsReservedStem(stem)
    requires |stem| + |ext| <= MaxNameLength
    requires ext == [] || (ext[0] == '.' && !IsStrippable(ext[|ext| - 1]))
    requires forall i :: 0 <= i < |ext| ==> !IsForbidden(ext[i])
    ensures CleanFilename(stem + ext) == DeviceMarker + ext
  {
    var s := stem + ext;
    forall i | 0 <= i < |s| ensures !IsForbidden(s[i]) {
      if i < |stem| {
        ReservedStemIsAlphanumeric(stem, i);
      } else {
        assert s[i] == ext[i - |stem|];
      }
    }
    ReservedStemIsAlphanumeric(stem, |stem| - 1);
    FirstStepsKeepAllowedName(s);
    DeviceStemFound(stem, ext);
    assert s[|stem|..] == ext;
  }

  /** `con.txt`, in any case, becomes `DEV.txt`. */
  lemma DeviceNameWithExtensionExample(con: string)
    requires MatchesIgnoreCase(con, "CON")
    ensures CleanFilename(con + ".txt") == "DEV" + ".txt"
  {
    var ext := ".txt";
    assert IsReservedStem(con) && |con| + |ext| <= MaxNameLength && ext[0] == '.' && !IsStrippable(ext[3]);
    assert forall i :: 0 <= i < |ext| ==> !IsForbidden(ext[i]) by {
      assert ext[0] == '.' && ext[1] == 't' && ext[2] == 'x' && ext[3] == 't';
    }
    DeviceNameKeepsExtension(con, ext);
  }

  /** `COM1` becomes `DEV`. */
  lemma DeviceNameAloneExample()
    ensures CleanFilename("COM1") == "DEV"
  {
    var stem := "COM1";
    assert stem[..3] == "COM";
    assert IsReservedStem(stem);
    DeviceNameKeepsExtension(stem, "");
    assert stem + "" == stem;
  }
}
