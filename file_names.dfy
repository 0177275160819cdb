/** File-name helpers of GenEpub: `fname_escape`, which makes a book name
    safe as a file name, and `is_img`, which recognises image file names
    by their extension. */
module FileNames {

  /** The nine characters `fname_escape` rewrites: \ / : * ? " < > | */
  predicate IsReserved(c: char) {
    c == '\\' || c == '/' || c == ':' || c == '*' || c == '?' || c == '"' || c == '<' || c == '>' || c == '|'
  }

  predicate EndsWith(s: string, suffix: string) {
    |suffix| <= |s| && s[|s| - |suffix|..] == suffix
  }

  /** `fname_escape`: every reserved character becomes '-', every other
      character stays where it is. */
  function FnameEscape(name: string): (r: string)
    ensures |r| == |name|
    ensures forall i | 0 <= i < |r| :: !IsReserved(r[i])
    ensures forall i | 0 <= i < |r| :: IsReserved(name[i]) ==> r[i] == '-'
    ensures forall i | 0 <= i < |r| :: !IsReserved(name[i]) ==> r[i] == name[i]
    decreases |name|
  {
    if name == [] then []
    else
      var c := name[|name| - 1];
      FnameEscape(name[..|name| - 1]) + [if IsReserved(c) then '-' else c]
  }

  /** Escaping an escaped name changes nothing more. */
  lemma FnameEscapeIdempotent(name: string)
    ensures FnameEscape(FnameEscape(name)) == FnameEscape(name)
  {
  }

  /** A name is left as it is exactly when it holds no reserved character. */
  lemma FnameEscapeFixedPoint(name: string)
    ensures FnameEscape(name) == name <==> forall i | 0 <= i < |name| :: !IsReserved(name[i])
  {
  }

  /** Escaping works character by character, so it distributes over
      concatenation. */
  lemma {:induction false} FnameEscapeConcat(a: string, b: string)
    ensures FnameEscape(a + b) == FnameEscape(a) + FnameEscape(b)
    decreases |b|
  {
    if b == [] {
      assert a + b == a;
    } else {
      var b' := b[..|b| - 1];
      assert (a + b)[..|a + b| - 1] == a + b';
      FnameEscapeConcat(a, b');
    }
  }

  /** The extensions `is_img` recognises, in the order of its pattern. */
  const IMAGE_EXTENSIONS: seq<string> := ["jpg", "jpeg", "gif", "png", "bmp", "webp", "tiff"]

  /** `is_img`: the name ends with a dot and one of the image extensions
      (compared case-sensitively). */
  function IsImg(s: string): (r: bool)
    ensures r <==> exists e | e in IMAGE_EXTENSIONS :: EndsWith(s, "." + e)
  {
    EndsWithExtension(s, IMAGE_EXTENSIONS)
  }

  function EndsWithExtension(s: string, exts: seq<string>): (r: bool)
    ensures r <==> exists e | e in exts :: EndsWith(s, "." + e)
  {
    if exts == [] then false
    else EndsWith(s, "." + exts[0]) || EndsWithExtension(s, exts[1..])
  }

  /** Whatever precedes an image name, the result is still an image name. */
  lemma IsImgPrefixed(prefix: string, s: string)
    requires IsImg(s)
    ensures IsImg(prefix + s)
  {
    var e :| e in IMAGE_EXTENSIONS && EndsWith(s, "." + e);
    EndsWithPrefixed(prefix, s, "." + e);
  }

  lemma EndsWithPrefixed(prefix: string, s: string, suffix: string)
    requires EndsWith(s, suffix)
    ensures EndsWith(prefix + s, suffix)
  {
    assert (prefix + s)[|prefix + s| - |suffix|..] == s[|s| - |suffix|..];
  }
}
