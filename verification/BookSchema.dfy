/**
 * The field constraints of the Book document schema: the `image` validator
 * and the default and lower bound of `copiesAvailable`.
 */
module BookSchema {
  import opened Wrappers
  import opened Text

  /** `x` spells the lower-case extension `e`, ignoring letter case. */
  predicate ExtensionIs(x: string, e: string)
  {
    |x| == |e| && forall i | 0 <= i < |x| :: LowerChar(x[i]) == e[i]
  }

  /** The alternation `(jpg|jpeg|png|webp)` under the case-insensitive flag. */
  predicate IsImageExtension(x: string)
  {
    ExtensionIs(x, "jpg") || ExtensionIs(x, "jpeg") || ExtensionIs(x, "png") || ExtensionIs(x, "webp")
  }

  /** The character class `[a-z0-9\-_.]` under the case-insensitive flag. */
  predicate IsNameChar(c: char)
  {
    var l := LowerChar(c);
    ('a' <= l <= 'z') || IsDigit(l) || l == '-' || l == '_' || l == '.'
  }

  /**
   * The filename pattern splits `v` at position `k`: one or more name
   * characters, then the dot at `k`, then an image extension in any case.
   */
  predicate SplitsAsFileName(v: string, k: int)
  {
    && 1 <= k < |v|
    && v[k] == '.'
    && (forall i | 0 <= i < k :: IsNameChar(v[i]))
    && IsImageExtension(v[k + 1..])
  }

  /** The regular expression `^[a-z0-9\-_.]+\.(jpg|jpeg|png|webp)$` with flag `i`. */
  ghost predicate MatchesFileNamePattern(v: string)
  {
    exists k :: SplitsAsFileName(v, k)
  }

  /**
   * Executable form of the filename pattern: every extension has three or
   * four letters, so the dot can only stand at one of two places.
   */
  function IsImageFileName(v: string): (b: bool)
    ensures b <==> MatchesFileNamePattern(v)
  {
    var b := SplitsAsFileName(v, |v| - 4) || SplitsAsFileName(v, |v| - 5);
    assert MatchesFileNamePattern(v) ==> b by {
      if MatchesFileNamePattern(v) {
        var k :| SplitsAsFileName(v, k);
        assert k == |v| - 4 || k == |v| - 5;
      }
    }
    b
  }

  /** The regular expression `^(http|https):\/\/`. */
  predicate IsUrl(v: string)
  {
    StartsWith(v, "http://") || StartsWith(v, "https://")
  }

  /** The `image` validator: a URL, or a plain image filename. */
  function IsValidImage(v: string): (b: bool)
    ensures b <==> IsUrl(v) || MatchesFileNamePattern(v)
  {
    IsUrl(v) || IsImageFileName(v)
  }

  /** Nothing after the URL scheme is checked. */
  lemma UrlAcceptedWhateverFollows(rest: string)
    ensures IsValidImage("http://" + rest)
    ensures IsValidImage("https://" + rest)
  {
  }

  /** Every character of an accepted filename is in the name class. */
  lemma FileNameCharsOnly(v: string, i: int)
    requires MatchesFileNamePattern(v)
    requires 0 <= i < |v|
    ensures IsNameChar(v[i])
  {
  }

  /** Lower-casing a candidate extension does not change whether it matches. */
  lemma ExtensionIgnoresCase(x: string)
    ensures IsImageExtension(Lower(x)) == IsImageExtension(x)
  {
  }

  /** The filename alternative ignores letter case. */
  lemma {:induction false} FileNameCaseInsensitive(v: string)
    ensures MatchesFileNamePattern(v) <==> MatchesFileNamePattern(Lower(v))
  {
    var l := Lower(v);
    forall k | 1 <= k < |v|
      ensures SplitsAsFileName(v, k) <==> SplitsAsFileName(l, k)
    {
      assert forall i | 0 <= i < k :: IsNameChar(l[i]) == IsNameChar(v[i]);
      assert l[k + 1..] == Lower(v[k + 1..]);
      ExtensionIgnoresCase(v[k + 1..]);
    }
    if MatchesFileNamePattern(l) {
      var k :| SplitsAsFileName(l, k);
      assert SplitsAsFileName(v, k);
    }
    if MatchesFileNamePattern(v) {
      var k :| SplitsAsFileName(v, k);
      assert SplitsAsFileName(l, k);
    }
  }

  /** Upper-case filenames are accepted. */
  lemma UpperCaseNameAccepted()
    ensures IsValidImage("COVER.PNG")
  {
  }

  /** A name with a slash or a space is rejected. */
  lemma SlashOrSpaceRejected(v: string, i: int)
    requires !IsUrl(v)
    requires 0 <= i < |v| && (v[i] == '/' || v[i] == ' ')
    ensures !IsValidImage(v)
  {
  }

  /** A trailing extension that is not an image extension is rejected. */
  lemma TrailingExtensionRejected()
    ensures !IsValidImage("a.jpg.exe")
  {
    assert !ExtensionIs("exe", "jpg") by { assert "exe"[0] != 'j'; }
    assert !ExtensionIs("exe", "png") by { assert "exe"[0] != 'p'; }
    assert !ExtensionIs(".exe", "jpeg") by { assert ".exe"[0] != 'j'; }
    assert !ExtensionIs(".exe", "webp") by { assert ".exe"[0] != 'w'; }
    assert !SplitsAsFileName("a.jpg.exe", 5);
    assert !SplitsAsFileName("a.jpg.exe", 4);
  }

  /** At least one character must come before the extension dot. */
  lemma BareExtensionRejected()
    ensures !IsValidImage(".jpg")
  {
  }

  /** Why a Book is refused by the schema. */
  datatype SchemaError = CopiesBelowMinimum

  /**
   * The `copiesAvailable` member of a request body: left out, sent as
   * `null`, or a JavaScript number (modelled as an exact real).
   */
  datatype CountField = CountAbsent | CountNull | CountNumber(n: real)

  /** What the document holds for `copiesAvailable` once saved. */
  datatype StoredCount = StoredNull | StoredNumber(n: real)

  /** The `min: 0` validator of `copiesAvailable`, run on every save of a number. */
  predicate MeetsMinimum(copies: real)
  {
    copies >= 0.0
  }

  /**
   * `copiesAvailable: { type: Number, default: 1, min: 0 }` applied when a
   * Book is saved: the default replaces only an absent value, and the
   * validator skips `null`.
   */
  function CopiesOnSave(given: CountField): (r: Result<StoredCount, SchemaError>)
    ensures given.CountAbsent? ==> r == Success(StoredNumber(1.0))
    ensures given.CountNull? ==> r == Success(StoredNull)
    ensures given.CountNumber? ==> (r.Success? <==> given.n >= 0.0)
    ensures given.CountNumber? && r.Success? ==> r.value == StoredNumber(given.n)
  {
    match given
    case CountAbsent => Success(StoredNumber(1.0))
    case CountNull => Success(StoredNull)
    case CountNumber(n) => if MeetsMinimum(n) then Success(StoredNumber(n)) else Failure(CopiesBelowMinimum)
  }
}
