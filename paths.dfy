/**
 * File names and paths of the upload directories.
 *
 * Paths in the file store are relative to the server's working directory
 * (`uploads/restaurants/x.jpg`); public URLs are the same path with a
 * leading slash (`/uploads/restaurants/x.jpg`), served by the static mount.
 */
module Paths {
  import opened Text

  type Path = string

  /** Destination of the cover and gallery uploaders (config/upload.js). */
  const RESTAURANT_DIR: Path := "uploads/restaurants"
  /** Destination of the photography uploader (config/uploadPhotography.js). */
  const PHOTOGRAPHY_DIR: Path := "uploads/photography"
  /** Prefix of a stored restaurant image produced from an upload. */
  const COMPRESSED_PREFIX: string := "compressed-"

  /** `path.join(dir, name)` for a file name without separators. */
  function Join(dir: Path, name: string): Path {
    dir + "/" + name
  }

  /** The URL under which a file of `dir` is served. */
  function PublicUrl(dir: Path, name: string): string {
    "/" + Join(dir, name)
  }

  /**
   * `path.resolve('.' + url)`, relative to the working directory: a URL that
   * starts with `/` names the file at that path; anything else becomes a
   * dot-prefixed name in the working directory.
   */
  function Resolve(url: string): Path {
    if |url| > 0 && url[0] == '/' then url[1..] else "." + url
  }

  /** The file a public URL was made from is the file it resolves to. */
  lemma ResolvePublicUrl(dir: Path, name: string)
    ensures Resolve(PublicUrl(dir, name)) == Join(dir, name)
  {
  }

  /** Index of the last `c` in `s`, or -1. */
  function LastIndexOf(s: string, c: char): (i: int)
    ensures -1 <= i < |s|
    ensures i >= 0 ==> s[i] == c
    ensures forall j :: i < j < |s| ==> s[j] != c
  {
    if s == [] then -1
    else if s[|s| - 1] == c then |s| - 1
    else LastIndexOf(s[..|s| - 1], c)
  }

  /**
   * Node's `path.extname` of a base name: from the last dot to the end,
   * or empty when there is no dot, when the only dot is the first character
   * (`.profile`), or when the name is `..`.
   */
  function Extname(name: string): (e: string)
    ensures e == "" || (e[0] == '.' && EndsWith(name, e) && '.' !in e[1..])
    ensures e == "" <==> name == ".." || forall i :: 0 < i < |name| ==> name[i] != '.'
  {
    var d := LastIndexOf(name, '.');
    if d <= 0 || name == ".." then ""
    else
      assert name[|name| - |name[d..]|..] == name[d..];
      name[d..]
  }

  /**
   * The multer `filename` callback (config/upload.js and
   * config/uploadPhotography.js): `Date.now() + '-' + Math.round(Math.random() * 1e9)`
   * followed by the extension of the client's file name. The clock reading
   * and the random number are inputs here.
   */
  function StoredName(millis: nat, random: nat, originalName: string): string {
    Decimal(millis) + "-" + Decimal(random) + Extname(originalName)
  }

  /** Reads the clock and random parts back out of a stored file name. */
  function NameParts(name: string): (nat, nat) {
    var first := LeadingDigits(name);
    var rest := name[|first|..];
    var second := if rest != [] && rest[0] == '-' then LeadingDigits(rest[1..]) else [];
    (ValueOf(first), ValueOf(second))
  }

  /** A stored name ends with the extension of the client's name. */
  lemma StoredNameKeepsExtension(millis: nat, random: nat, originalName: string)
    ensures EndsWith(StoredName(millis, random, originalName), Extname(originalName))
  {
    var n := StoredName(millis, random, originalName);
    var e := Extname(originalName);
    assert n[|n| - |e|..] == e;
  }

  /** The clock and random parts can be read back from a stored name. */
  lemma StoredNameParts(millis: nat, random: nat, originalName: string)
    ensures NameParts(StoredName(millis, random, originalName)) == (millis, random)
  {
    var e := Extname(originalName);
    NamePartsOf(Decimal(millis), Decimal(random), e);
    DecimalRoundTrip(millis);
    DecimalRoundTrip(random);
  }

  lemma NamePartsOf(m: string, r: string, e: string)
    requires AllDigits(m) && AllDigits(r)
    requires e == [] || !IsDigit(e[0])
    ensures NameParts(m + "-" + r + e) == (ValueOf(m), ValueOf(r))
  {
    var name := m + "-" + r + e;
    var tail := "-" + r + e;
    assert name == m + tail;
    LeadingDigitsOf(m, tail);
    assert name[|m|..] == tail;
    assert tail[1..] == r + e;
    LeadingDigitsOf(r, e);
  }

  /**
   * Two uploads whose clock readings or random numbers differ never get the
   * same stored name (the scheme only collides when both coincide).
   */
  lemma StoredNamesDistinct(m1: nat, r1: nat, o1: string, m2: nat, r2: nat, o2: string)
    requires (m1, r1) != (m2, r2)
    ensures StoredName(m1, r1, o1) != StoredName(m2, r2, o2)
  {
    StoredNameParts(m1, r1, o1);
    StoredNameParts(m2, r2, o2);
  }

  /**
   * A stored name starts with a digit, so in the restaurant directory it is
   * never the `compressed-` file of any upload.
   */
  lemma StoredNameIsNotCompressed(millis: nat, random: nat, originalName: string, filename: string)
    ensures Join(RESTAURANT_DIR, StoredName(millis, random, originalName)) != Join(RESTAURANT_DIR, CompressedName(filename))
  {
    var a, b := Join(RESTAURANT_DIR, StoredName(millis, random, originalName)), Join(RESTAURANT_DIR, CompressedName(filename));
    assert a[20] == Decimal(millis)[0] && IsDigit(a[20]);
    assert b[20] == 'c';
  }

  /** `compressed-<name>`: the stored file a restaurant upload becomes. */
  function CompressedName(filename: string): string {
    COMPRESSED_PREFIX + filename
  }

  /**
   * The compressed file never overwrites the upload it comes from:
   * `<dir>/<name>` differs from `uploads/restaurants/compressed-<name>`
   * whatever directory the upload was written to.
   */
  lemma {:induction false} CompressedPathDiffers(dir: Path, filename: string)
    ensures Join(dir, filename) != Join(RESTAURANT_DIR, CompressedName(filename))
  {
    var a, b := Join(dir, filename), Join(RESTAURANT_DIR, CompressedName(filename));
    if |a| == |b| {
      assert |dir| == 30;
      assert a[30] == '/' && b[30] == '-';
    }
  }
}
