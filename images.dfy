/** The image dictionary of GenEpub (file name to bytes, in insertion
    order, as a Python dict keeps it), the `get`/`update` operations the
    paginator uses on it, and the scan that finds the image names an
    article's content refers to. */
module Images {
  import FileNames

  newtype byte = x: int | 0 <= x < 256

  datatype Image = Image(name: string, data: seq<byte>)

  /** A dict from image file name to its bytes; the order of the entries is
      the dict's iteration order. */
  type ImageSet = seq<Image>

  /** The keys in iteration order. */
  function Names(m: ImageSet): (r: seq<string>)
    ensures |r| == |m|
    ensures forall i | 0 <= i < |m| :: r[i] == m[i].name
  {
    seq(|m|, i requires 0 <= i < |m| => m[i].name)
  }

  /** `m.get(k, b'')`: the bytes stored under `k`, or no bytes when `k` is
      not a key. */
  function Lookup(m: ImageSet, k: string): (v: seq<byte>)
    ensures k !in Names(m) ==> v == []
    ensures k in Names(m) ==> Image(k, v) in m
  {
    if m == [] then []
    else if m[0].name == k then m[0].data
    else Lookup(m[1..], k)
  }

  /** `m[k] = v`: an existing key keeps its place and gets the new value, a
      new key goes last. */
  function Put(m: ImageSet, k: string, v: seq<byte>): (r: ImageSet)
    ensures Names(r) == if k in Names(m) then Names(m) else Names(m) + [k]
    ensures Image(k, v) in r
    ensures forall e | e in r && e.name != k :: e in m
    ensures forall e | e in m && e.name != k :: e in r
    ensures forall e | e in r :: e in m || e == Image(k, v)
  {
    if m == [] then [Image(k, v)]
    else if m[0].name == k then
      NamesCons(m[0], m[1..]);
      NamesCons(Image(k, v), m[1..]);
      assert [m[0]] + m[1..] == m;
      [Image(k, v)] + m[1..]
    else
      var rest := Put(m[1..], k, v);
      NamesCons(m[0], m[1..]);
      NamesCons(m[0], rest);
      assert [m[0]] + m[1..] == m;
      [m[0]] + rest
  }

  lemma NamesCons(e: Image, m: ImageSet)
    ensures Names([e] + m) == [e.name] + Names(m)
  {
  }

  /** `part.update({n: imgs.get(n, b'') for n in refs})`. */
  function Merge(part: ImageSet, refs: seq<string>, imgs: ImageSet): (r: ImageSet)
    ensures forall n | n in refs :: Image(n, Lookup(imgs, n)) in r
    ensures forall e | e in part && e.name !in refs :: e in r
    ensures forall e | e in r :: e in part || (e.name in refs && e.data == Lookup(imgs, e.name))
    decreases |refs|
  {
    if refs == [] then part
    else
      var last := refs[|refs| - 1];
      Put(Merge(part, refs[..|refs| - 1], imgs), last, Lookup(imgs, last))
  }

  /** Every entry of `part` holds what `imgs.get` gives for its name. */
  ghost predicate Resolved(part: ImageSet, imgs: ImageSet) {
    forall e | e in part :: e.data == Lookup(imgs, e.name)
  }

  /** The names of `s` in order of first occurrence, each once. */
  function Dedup(s: seq<string>): (r: seq<string>)
    ensures forall x :: x in r <==> x in s
    ensures forall i, j | 0 <= i < j < |r| :: r[i] != r[j]
    decreases |s|
  {
    if s == [] then []
    else
      var d := Dedup(s[..|s| - 1]);
      assert s == s[..|s| - 1] + [s[|s| - 1]];
      if s[|s| - 1] in d then d else d + [s[|s| - 1]]
  }

  /** Merging references into a part that holds the names of `seen` leaves
      it holding the names of `seen + refs`, in first-reference order, each
      resolved against `imgs`. */
  lemma {:induction false} MergeNames(part: ImageSet, seen: seq<string>, refs: seq<string>, imgs: ImageSet)
    requires Names(part) == Dedup(seen) && Resolved(part, imgs)
    ensures Names(Merge(part, refs, imgs)) == Dedup(seen + refs)
    ensures Resolved(Merge(part, refs, imgs), imgs)
    decreases |refs|
  {
    if refs == [] {
      assert seen + refs == seen;
    } else {
      var init, last := refs[..|refs| - 1], refs[|refs| - 1];
      MergeNames(part, seen, init, imgs);
      assert (seen + refs)[..|seen + refs| - 1] == seen + init;
    }
  }

  /** `\w` restricted to ASCII: letters, digits and the underscore. */
  predicate IsWordChar(c: char) {
    'a' <= c <= 'z' || 'A' <= c <= 'Z' || '0' <= c <= '9' || c == '_'
  }

  /** The text before the captured name in `src="../Images/(\w{32}\.png)"`. */
  const REF_PREFIX: string := "src=\"../Images/"

  /** A captured name: 32 word characters and ".png". */
  predicate IsImageName(n: string) {
    |n| == 36 && (forall j | 0 <= j < 32 :: IsWordChar(n[j])) && n[32..] == ".png"
  }

  /** The pattern matches at the start of `s`. */
  predicate RefAt(s: string) {
    |s| >= 52 && s[..15] == REF_PREFIX && IsImageName(s[15..51]) && s[51] == '"'
  }

  /** `re.findall(r'src="\.\./Images/(\w{32}\.png)"', content)`: the names
      of the non-overlapping matches, left to right. */
  function FindImageRefs(content: string): (r: seq<string>)
    ensures forall n | n in r :: IsImageName(n) && FileNames.IsImg(n)
    decreases |content|
  {
    if |content| < 52 then []
    else if RefAt(content) then
      var n := content[15..51];
      assert FileNames.EndsWith(n, "." + "png");
      [n] + FindImageRefs(content[52..])
    else FindImageRefs(content[1..])
  }

  /** The name `n` is captured by a match of the pattern starting somewhere
      in `s`. */
  ghost predicate Occurs(s: string, n: string) {
    exists i | 0 <= i < |s| :: RefAt(s[i..]) && s[i..][15..51] == n
  }

  lemma OccursShift(s: string, k: nat, n: string)
    requires k <= |s| && Occurs(s[k..], n)
    ensures Occurs(s, n)
  {
    var i :| 0 <= i < |s[k..]| && RefAt(s[k..][i..]) && s[k..][i..][15..51] == n;
    assert s[k..][i..] == s[k + i..];
  }

  /** Every name found is captured by a match in the content. */
  lemma {:induction false} FindImageRefsSound(s: string)
    ensures forall n | n in FindImageRefs(s) :: Occurs(s, n)
    decreases |s|
  {
    if |s| >= 52 {
      assert s[0..] == s;
      if RefAt(s) {
        FindImageRefsSound(s[52..]);
        forall n | n in FindImageRefs(s[52..]) ensures Occurs(s, n) {
          OccursShift(s, 52, n);
        }
      } else {
        FindImageRefsSound(s[1..]);
        forall n | n in FindImageRefs(s[1..]) ensures Occurs(s, n) {
          OccursShift(s, 1, n);
        }
      }
    }
  }

  /** Nothing is found exactly when the pattern matches nowhere. */
  lemma {:induction false} FindImageRefsNone(s: string)
    ensures FindImageRefs(s) == [] <==> forall i | 0 <= i < |s| :: !RefAt(s[i..])
    decreases |s|
  {
    if |s| >= 52 {
      assert s[0..] == s;
      if !RefAt(s) {
        FindImageRefsNone(s[1..]);
        forall i | 1 <= i < |s| ensures s[1..][i - 1..] == s[i..] { }
      }
    } else {
      forall i | 0 <= i < |s| ensures !RefAt(s[i..]) { }
    }
  }

  /** The scan skips text in which no match starts: a prefix of `s` with no
      match starting inside it contributes nothing. */
  lemma {:induction false} FindImageRefsSkip(s: string, j: nat)
    requires j <= |s|
    requires forall i | 0 <= i < j :: !RefAt(s[i..])
    ensures FindImageRefs(s) == FindImageRefs(s[j..])
    decreases j
  {
    if j > 0 {
      assert s[0..] == s;
      if |s| >= 52 {
        forall i | 0 <= i < j - 1 ensures !RefAt(s[1..][i..]) {
          assert s[1..][i..] == s[i + 1..];
        }
        FindImageRefsSkip(s[1..], j - 1);
        assert s[1..][j - 1..] == s[j..];
      }
    }
  }

  lemma RefTextAt(n: string, q: string)
    requires IsImageName(n)
    ensures FindImageRefs(RefText(n) + q) == [n] + FindImageRefs(q)
  {
    var t := RefText(n) + q;
    assert t[..15] == REF_PREFIX && t[15..51] == n && t[51] == '"';
    assert t[52..] == q;
  }

  /** A reference preceded by text in which no match starts is the first
      name found, and the scan resumes right after it. */
  lemma FindImageRefsAfter(p: string, n: string, q: string)
    requires IsImageName(n)
    requires forall i | 0 <= i < |p| :: !RefAt((p + RefText(n) + q)[i..])
    ensures FindImageRefs(p + RefText(n) + q) == [n] + FindImageRefs(q)
  {
    var t := RefText(n) + q;
    var s := p + t;
    assert p + RefText(n) + q == s;
    FindImageRefsSkip(s, |p|);
    assert s[|p|..] == t;
    RefTextAt(n, q);
  }

  /** The text of one image reference as the article pages carry it. */
  function RefText(n: string): string {
    REF_PREFIX + n + "\""
  }

  /** The references to `names`, one after the other. */
  function RefTexts(names: seq<string>): string
    decreases |names|
  {
    if names == [] then [] else RefText(names[0]) + RefTexts(names[1..])
  }

  /** Scanning text made of references finds exactly the names referred to,
      in order. */
  lemma {:induction false} FindImageRefsOfRefs(names: seq<string>)
    requires forall n | n in names :: IsImageName(n)
    ensures FindImageRefs(RefTexts(names)) == names
    decreases |names|
  {
    if names != [] {
      var n, rest := names[0], RefTexts(names[1..]);
      var s := RefText(n) + rest;
      assert names[0] in names;
      assert |s| >= 52;
      assert s[..15] == REF_PREFIX && s[15..51] == n && s[51] == '"';
      assert s[52..] == rest;
      assert forall m | m in names[1..] :: m in names;
      FindImageRefsOfRefs(names[1..]);
    }
  }

  /** `sum(len(imgs.get(n, b'')) for n in refs)`: a name referred to twice
      counts twice, a missing image counts zero. */
  function RefsSize(refs: seq<string>, imgs: ImageSet): nat
    decreases |refs|
  {
    if refs == [] then 0
    else RefsSize(refs[..|refs| - 1], imgs) + |Lookup(imgs, refs[|refs| - 1])|
  }

  /** The size is zero exactly when every referred image is missing or
      empty. */
  lemma {:induction false} RefsSizeZero(refs: seq<string>, imgs: ImageSet)
    ensures RefsSize(refs, imgs) == 0 <==> forall n | n in refs :: Lookup(imgs, n) == []
    decreases |refs|
  {
    if refs != [] {
      var init, last := refs[..|refs| - 1], refs[|refs| - 1];
      RefsSizeZero(init, imgs);
      assert refs == init + [last];
      assert forall n | n in refs :: n in init || n == last;
      assert last in refs && forall n | n in init :: n in refs;
    }
  }

  /** The sizes of two runs of references add up. */
  lemma {:induction false} RefsSizeConcat(a: seq<string>, b: seq<string>, imgs: ImageSet)
    ensures RefsSize(a + b, imgs) == RefsSize(a, imgs) + RefsSize(b, imgs)
    decreases |b|
  {
    if b == [] {
      assert a + b == a;
    } else {
      var b' := b[..|b| - 1];
      assert (a + b)[..|a + b| - 1] == a + b';
      assert (a + b)[|a + b| - 1] == b[|b| - 1];
      RefsSizeConcat(a, b', imgs);
    }
  }
}
