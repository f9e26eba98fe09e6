/**
 * Storage names: the whitespace sanitiser applied to every uploaded file's
 * original name, and the name mapping the decrypt-all handler applies when it
 * writes a recovered file (`file.replace('.enc', '')`).
 */
module FileNames {

  /**
   * The characters the JavaScript regular expression class `\s` matches:
   * ECMA-262's WhiteSpace (tab, vertical tab, form feed, space, no-break
   * space, zero width no-break space and every other Unicode "Zs" character)
   * and LineTerminator (line feed, carriage return, line and paragraph
   * separators).
   */
  predicate IsJsWhitespace(c: char)
  {
    || c == '\t' || c == '\n' || c == '\U{0B}' || c == '\U{0C}' || c == '\r'
    || c == ' ' || c == '\U{A0}' || c == '\U{1680}'
    || ('\U{2000}' <= c <= '\U{200A}')
    || c == '\U{2028}' || c == '\U{2029}' || c == '\U{202F}' || c == '\U{205F}'
    || c == '\U{3000}' || c == '\U{FEFF}'
  }

  /**
   * `name.replace(/\s/g, '_')`: the storage name multer gives an uploaded
   * file. The name keeps its length, every whitespace character becomes an
   * underscore and every other character stays where it was.
   */
  function Sanitize(name: string): (r: string)
    ensures |r| == |name|
    ensures forall i :: 0 <= i < |name| && IsJsWhitespace(name[i]) ==> r[i] == '_'
    ensures forall i :: 0 <= i < |name| && !IsJsWhitespace(name[i]) ==> r[i] == name[i]
    ensures forall i :: 0 <= i < |r| ==> !IsJsWhitespace(r[i])
  {
    if name == [] then []
    else [if IsJsWhitespace(name[0]) then '_' else name[0]] + Sanitize(name[1..])
  }

  /** Sanitising a name that is already a storage name changes nothing. */
  lemma SanitizeIdempotent(name: string)
    ensures Sanitize(Sanitize(name)) == Sanitize(name)
  {
  }

  /** A name without whitespace is its own storage name, and only such a name is. */
  lemma SanitizeFixedPoints(name: string)
    ensures Sanitize(name) == name <==> forall i :: 0 <= i < |name| ==> !IsJsWhitespace(name[i])
  {
  }

  /** `pat` occurs in `s` starting at index `i`. */
  predicate OccursAt(s: string, pat: string, i: nat)
  {
    i + |pat| <= |s| && s[i..i + |pat|] == pat
  }

  /** `i` is the index of the first occurrence of `pat` in `s` (`s.indexOf(pat)`). */
  predicate IsFirstOccurrence(s: string, pat: string, i: nat)
  {
    OccursAt(s, pat, i) && forall j: nat :: j < i ==> !OccursAt(s, pat, j)
  }

  /**
   * `s.replace(pat, '')` with a string pattern: only the first occurrence of
   * `pat` is removed (RemoveFirstAt); a string in which `pat` does not occur
   * is returned as is (RemoveFirstAbsent).
   */
  function RemoveFirst(s: string, pat: string): (r: string)
    ensures r == s || |r| == |s| - |pat|
    decreases |s|
  {
    if |s| < |pat| then s
    else if s[..|pat|] == pat then s[|pat|..]
    else assert [s[0]] + s[1..] == s; [s[0]] + RemoveFirst(s[1..], pat)
  }

  /** An occurrence in the tail of `s` is an occurrence in `s`, one place later. */
  lemma ShiftOccurrence(s: string, pat: string, i: nat)
    requires |s| > 0 && OccursAt(s[1..], pat, i)
    ensures OccursAt(s, pat, i + 1)
  {
  }

  /** A first occurrence past index 0 is a first occurrence in the tail, one place earlier. */
  lemma ShiftFirstOccurrence(s: string, pat: string, i: nat)
    requires IsFirstOccurrence(s, pat, i) && i > 0
    ensures IsFirstOccurrence(s[1..], pat, i - 1)
  {
    assert s[1..][i - 1..i - 1 + |pat|] == s[i..i + |pat|];
    forall j: nat | j < i - 1 ensures !OccursAt(s[1..], pat, j) {
      if OccursAt(s[1..], pat, j) {
        ShiftOccurrence(s, pat, j);
        assert false;
      }
    }
  }

  /** Where `pat` does not occur, removing its first occurrence changes nothing. */
  lemma {:induction false} RemoveFirstAbsent(s: string, pat: string)
    requires forall i: nat :: !OccursAt(s, pat, i)
    ensures RemoveFirst(s, pat) == s
    decreases |s|
  {
    if |s| >= |pat| {
      assert !OccursAt(s, pat, 0);
      forall i: nat ensures !OccursAt(s[1..], pat, i) {
        if OccursAt(s[1..], pat, i) {
          ShiftOccurrence(s, pat, i);
        }
      }
      RemoveFirstAbsent(s[1..], pat);
      assert [s[0]] + s[1..] == s;
    }
  }

  /** Only the first occurrence of `pat` is cut out; everything before and after it stays. */
  lemma {:induction false} RemoveFirstAt(s: string, pat: string, i: nat)
    requires IsFirstOccurrence(s, pat, i)
    ensures RemoveFirst(s, pat) == s[..i] + s[i + |pat|..]
    decreases |s|
  {
    if i == 0 {
      assert s[..|pat|] == pat;
    } else {
      if s[..|pat|] == pat {
        assert OccursAt(s, pat, 0);
        assert false;
      }
      ShiftFirstOccurrence(s, pat, i);
      RemoveFirstAt(s[1..], pat, i - 1);
      assert [s[0]] + (s[1..][..i - 1] + s[1..][i - 1 + |pat|..]) == s[..i] + s[i + |pat|..];
    }
  }

  /** The suffix the decrypt-all handler strips when it names a recovered file. */
  const EncSuffix: string := ".enc"

  /** `file.replace('.enc', '')`: the decrypted-directory name decrypt-all writes for `file`. */
  function DecryptedName(file: string): (r: string)
  {
    RemoveFirst(file, EncSuffix)
  }

  /**
   * Decrypt-all writes a recovered file under the same name as the download
   * handler exactly when ".enc" does not occur in the stored name; otherwise
   * the two handlers disagree (the name is four characters shorter).
   */
  lemma DecryptedNameAgreesWithDownload(file: string)
    ensures DecryptedName(file) == file <==> forall i: nat :: !OccursAt(file, EncSuffix, i)
    ensures (exists i: nat :: OccursAt(file, EncSuffix, i)) ==> |DecryptedName(file)| == |file| - 4
  {
    if exists i: nat :: OccursAt(file, EncSuffix, i) {
      var k: nat :| OccursAt(file, EncSuffix, k);
      var i := FirstOccurrence(file, EncSuffix, k);
      RemoveFirstAt(file, EncSuffix, i);
    } else {
      RemoveFirstAbsent(file, EncSuffix);
    }
  }

  /**
   * The first ".enc" need not be a suffix: decrypt-all writes a stored
   * "notes.encoding.txt" as "notesoding.txt", where download would write
   * "notes.encoding.txt".
   */
  lemma EncCutFromMiddle()
    ensures DecryptedName("notes.encoding.txt") == "notesoding.txt"
  {
    var s := "notes.encoding.txt";
    assert s[5..9] == EncSuffix;
    forall j: nat | j < 5 ensures !OccursAt(s, EncSuffix, j) {
      assert s[j] != '.';
      assert s[j..j + 4][0] == s[j];
    }
    RemoveFirstAt(s, EncSuffix, 5);
    assert s[..5] + s[9..] == "notesoding.txt";
  }

  /** Every occurrence of `pat` is preceded by (or is) a first occurrence. */
  lemma {:induction false} FirstOccurrence(s: string, pat: string, k: nat) returns (i: nat)
    requires OccursAt(s, pat, k)
    ensures i <= k && IsFirstOccurrence(s, pat, i)
    decreases k
  {
    if exists j: nat :: j < k && OccursAt(s, pat, j) {
      var j: nat :| j < k && OccursAt(s, pat, j);
      i := FirstOccurrence(s, pat, j);
    } else {
      i := k;
    }
  }
}
