/** The naming logic of `gen_epub_aio`, which writes one EPUB archive: how
    the book name and output path are settled, the zero-padded file name of
    each article's page, and the two tables of contents handed to the
    templates. */
module Archive {
  import opened Wrappers
  import opened Decimal
  import opened FileNames
  import opened Images

  datatype Article = Article(title: string, content: string)

  /** `name or articles[0]['title']`; an absent name is "", which Python
      treats as false just like None. None is the IndexError raised when
      there is neither a name nor an article. */
  function ResolveName(articles: seq<Article>, name: string): (r: Option<string>)
    ensures r.None? <==> name == "" && articles == []
    ensures r.Some? && name != "" ==> r.value == name
    ensures r.Some? && name == "" ==> r.value == articles[0].title
  {
    if name != "" then Some(name)
    else if articles == [] then None
    else Some(articles[0].title)
  }

  /** `path or fname_escape(name) + '.epub'`, then '.epub' appended when
      the path does not already end with it. */
  function ResolvePath(name: string, path: string): (r: string)
    ensures EndsWith(r, ".epub")
    ensures path != "" ==> path <= r && |r| <= |path| + 5
    ensures path != "" && EndsWith(path, ".epub") ==> r == path
    ensures path != "" && !EndsWith(path, ".epub") ==> r == path + ".epub"
    ensures path == "" ==> r == FnameEscape(name) + ".epub"
  {
    var p := if path != "" then path else FnameEscape(name) + ".epub";
    if EndsWith(p, ".epub") then p else p + ".epub"
  }

  /** The default path is the escaped name with '.epub' appended, and so
      contains none of the nine reserved characters. */
  lemma DefaultPath(name: string)
    ensures ResolvePath(name, "") == FnameEscape(name) + ".epub"
    ensures forall i | 0 <= i < |ResolvePath(name, "")| :: !IsReserved(ResolvePath(name, "")[i])
  {
    var e := FnameEscape(name);
    var p := e + ".epub";
    assert p[|p| - 5..] == ".epub";
    assert forall k | 0 <= k < |".epub"| :: !IsReserved(".epub"[k]);
    NoReservedConcat(e, ".epub");
  }

  lemma NoReservedConcat(a: string, b: string)
    requires forall i | 0 <= i < |a| :: !IsReserved(a[i])
    requires forall i | 0 <= i < |b| :: !IsReserved(b[i])
    ensures forall i | 0 <= i < |a + b| :: !IsReserved((a + b)[i])
  {
    forall i | 0 <= i < |a + b|
      ensures !IsReserved((a + b)[i])
    {
      if i < |a| {
        assert (a + b)[i] == a[i];
      } else {
        assert (a + b)[i] == b[i - |a|];
      }
    }
  }

  /** Settling a path twice changes nothing the second time. */
  lemma ResolvePathIdempotent(name: string, other: string, path: string)
    ensures ResolvePath(other, ResolvePath(name, path)) == ResolvePath(name, path)
  {
    var r := ResolvePath(name, path);
    assert |r| >= 5;
  }

  datatype Target = Target(name: string, path: string)

  /** Lines 30-34 of `gen_epub_aio`: the book name and the output path, or
      None for the IndexError on an empty article list without a name. */
  function Naming(articles: seq<Article>, name: string, path: string): (r: Option<Target>)
    ensures r.None? <==> name == "" && articles == []
    ensures r.Some? ==> Some(r.value.name) == ResolveName(articles, name)
    ensures r.Some? ==> r.value.path == ResolvePath(r.value.name, path)
  {
    match ResolveName(articles, name)
    case None => None
    case Some(n) => Some(Target(n, ResolvePath(n, path)))
  }

  /** `len(str(len(articles)))`: the width article page numbers are padded to. */
  function PadWidth(count: nat): nat {
    |NatToString(count)|
  }

  /** `s.zfill(width)` for a string of digits: zeros in front up to `width`. */
  function ZFill(s: string, width: nat): (r: string)
    ensures AllDigits(s) ==> AllDigits(r)
  {
    if |s| >= width then s else Zeros(width - |s|) + s
  }

  /** `str(i).zfill(l)`: the page number of the `i`-th of `count` articles. */
  function PadIndex(i: nat, count: nat): (r: string)
    ensures AllDigits(r) && Value(r) == i
    ensures |r| >= PadWidth(count)
  {
    var s := NatToString(i);
    if |s| < PadWidth(count) then
      ValueZerosPrefix(PadWidth(count) - |s|, s);
      ZFill(s, PadWidth(count))
    else ZFill(s, PadWidth(count))
  }

  /** Page numbers of an archive all have the same width and read back as
      the article's position. */
  lemma PadIndexRoundTrip(i: nat, count: nat)
    requires i < count
    ensures |PadIndex(i, count)| == PadWidth(count)
    ensures AllDigits(PadIndex(i, count)) && Value(PadIndex(i, count)) == i
  {
    NatToStringLengthMonotone(i, count);
  }

  datatype TocEntry = TocEntry(title: string, file: string)

  /** `html_toc`: one entry per article, its title and its page file. */
  function HtmlToc(articles: seq<Article>): (r: seq<TocEntry>)
    ensures |r| == |articles|
    ensures forall i | 0 <= i < |r| :: r[i].title == articles[i].title
  {
    seq(|articles|, i requires 0 <= i < |articles| => TocEntry(articles[i].title, PadIndex(i, |articles|) + ".html"))
  }

  /** The page files of an archive are distinct, so no article's page
      overwrites another's, and each names its article's position. */
  lemma HtmlTocFiles(articles: seq<Article>)
    ensures forall i | 0 <= i < |articles| ::
      HtmlToc(articles)[i].file == PadIndex(i, |articles|) + ".html"
      && |HtmlToc(articles)[i].file| == PadWidth(|articles|) + 5
    ensures forall i, j | 0 <= i < j < |articles| :: HtmlToc(articles)[i].file != HtmlToc(articles)[j].file
  {
    var toc, n := HtmlToc(articles), |articles|;
    forall i | 0 <= i < n
      ensures |toc[i].file| == PadWidth(n) + 5
    {
      PadIndexRoundTrip(i, n);
    }
    forall i, j | 0 <= i < j < n
      ensures toc[i].file != toc[j].file
    {
      PadIndexRoundTrip(i, n);
      PadIndexRoundTrip(j, n);
      assert toc[i].file[..PadWidth(n)] == PadIndex(i, n);
      assert toc[j].file[..PadWidth(n)] == PadIndex(j, n);
    }
  }

  /** `img_toc`: the image file names in the dict's order. */
  function ImgToc(imgs: ImageSet): (r: seq<string>)
    ensures |r| == |imgs|
    ensures forall i | 0 <= i < |r| :: r[i] == imgs[i].name
  {
    Names(imgs)
  }
}
