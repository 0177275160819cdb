/** `gen_epub_paging`: decides whether the articles fit in one archive and,
    when they do not, walks them once, closing a part each time the running
    image size plus the next article's image size reaches the limit. The
    archive writer `gen_epub_aio` is not called: the method returns the
    calls it would receive, in order. */
module Paging {
  import opened Wrappers
  import opened Decimal
  import opened FileNames
  import opened SizeLimit
  import opened Images
  import opened Archive

  /** One call `gen_epub_aio(articles, imgs)`, made without a name or path. */
  datatype AioCall = AioCall(articles: seq<Article>, imgs: ImageSet)

  datatype Error = IndexError

  /** The synthetic first article of the k-th part: `f'{name} PT{k}'` with
      empty content. */
  function Header(name: string, k: nat): Article {
    Article(name + " PT" + NatToString(k), "")
  }

  /** A header has no content, and its title is the name, " PT" and the
      part number, which reads back from the title. */
  lemma HeaderTitle(name: string, k: nat)
    ensures Header(name, k).content == ""
    ensures |Header(name, k).title| > |name| + 3 && Header(name, k).title[..|name| + 3] == name + " PT"
    ensures AllDigits(Header(name, k).title[|name| + 3..]) && Value(Header(name, k).title[|name| + 3..]) == k
  {
    assert Header(name, k).title[|name| + 3..] == NatToString(k);
  }

  /** The image names an article's content refers to (line 112). */
  function ArticleRefs(a: Article): seq<string> {
    FindImageRefs(a.content)
  }

  /** The per-article size the loop uses: image bytes only (lines 113-116). */
  function ArticleSize(a: Article, imgs: ImageSet): nat {
    RefsSize(ArticleRefs(a), imgs)
  }

  lemma ArticleSizeOf(a: Article, artImgs: seq<string>, size: int, imgs: ImageSet)
    requires artImgs == FindImageRefs(a.content) && size == RefsSize(artImgs, imgs)
    ensures artImgs == ArticleRefs(a) && size == ArticleSize(a, imgs)
  {
  }

  /** The summed per-article size of a run of articles. */
  function PartSize(arts: seq<Article>, imgs: ImageSet): nat
    decreases |arts|
  {
    if arts == [] then 0
    else PartSize(arts[..|arts| - 1], imgs) + ArticleSize(arts[|arts| - 1], imgs)
  }

  /** The image references of a run of articles, in order, repeats kept. */
  function PartRefs(arts: seq<Article>): seq<string>
    decreases |arts|
  {
    if arts == [] then []
    else PartRefs(arts[..|arts| - 1]) + ArticleRefs(arts[|arts| - 1])
  }

  /** `sum(len(v) for _, v in imgs.items())`. */
  function ImageBytes(imgs: ImageSet): (r: nat)
    ensures forall i | 0 <= i < |imgs| :: |imgs[i].data| <= r
    decreases |imgs|
  {
    if imgs == [] then 0
    else
      var init := imgs[..|imgs| - 1];
      assert forall i | 0 <= i < |init| :: init[i] == imgs[i];
      ImageBytes(init) + |imgs[|imgs| - 1].data|
  }

  /** The compressed lengths of the articles' titles and contents, summed. */
  function CompressedText(articles: seq<Article>, compressedLen: string -> nat): (r: nat)
    ensures forall i | 0 <= i < |articles| :: compressedLen(articles[i].title + articles[i].content) <= r
    decreases |articles|
  {
    if articles == [] then 0
    else
      var a, init := articles[|articles| - 1], articles[..|articles| - 1];
      assert forall i | 0 <= i < |init| :: init[i] == articles[i];
      CompressedText(init, compressedLen) + compressedLen(a.title + a.content)
  }

  /** The whole-set estimate of lines 97-101: every image's byte length plus,
      per article, the compressed length of its title and content.
      `compressedLen` stands for `len(zlib.compress(s.encode('utf8')))`. */
  function WholeSetSize(articles: seq<Article>, imgs: ImageSet, compressedLen: string -> nat): (r: nat)
    ensures forall i | 0 <= i < |imgs| :: |imgs[i].data| <= r
    ensures forall i | 0 <= i < |articles| :: compressedLen(articles[i].title + articles[i].content) <= r
  {
    ImageBytes(imgs) + CompressedText(articles, compressedLen)
  }

  /** The real articles of a part: all but its header. */
  function Body(c: AioCall): seq<Article> {
    if c.articles == [] then [] else c.articles[1..]
  }

  /** The bodies of all parts, one after the other. */
  function Bodies(calls: seq<AioCall>): seq<Article>
    decreases |calls|
  {
    if calls == [] then [] else Bodies(calls[..|calls| - 1]) + Body(calls[|calls| - 1])
  }

  /** Part k (counting from 0) starts with the header `{name} PT{k+1}`. */
  ghost predicate Numbered(calls: seq<AioCall>, name: string) {
    forall k | 0 <= k < |calls| :: calls[k].articles != [] && calls[k].articles[0] == Header(name, k + 1)
  }

  /** No article was added to a part once the part's size reached the
      limit: the first part stays below it, and any later part holding two
      or more articles does too. Only a lone article can reach the limit. */
  ghost predicate UnderBudget(calls: seq<AioCall>, imgs: ImageSet, limit: int) {
    forall k | 0 <= k < |calls| ::
      (|Body(calls[k])| >= 2 || (k == 0 && Body(calls[k]) != [])) ==> PartSize(Body(calls[k]), imgs) < limit
  }

  /** Every part boundary is a firing of the check at line 117: the next
      part is not empty, and its first article would have taken the part it
      follows to the limit. */
  ghost predicate SplitsForced(calls: seq<AioCall>, imgs: ImageSet, limit: int) {
    forall k | 0 < k < |calls| ::
      Body(calls[k]) != []
      && PartSize(Body(calls[k - 1]), imgs) + ArticleSize(Body(calls[k])[0], imgs) >= limit
  }

  /** Each part's image dict holds exactly the names its articles refer to,
      in order of first reference, each with `imgs.get(name, b'')`. */
  ghost predicate ImagesResolved(calls: seq<AioCall>, imgs: ImageSet) {
    forall k | 0 <= k < |calls| ::
      Names(calls[k].imgs) == Dedup(PartRefs(Body(calls[k]))) && Resolved(calls[k].imgs, imgs)
  }

  /** What a split run of `gen_epub_paging` hands to `gen_epub_aio`. */
  ghost predicate GreedySplit(calls: seq<AioCall>, articles: seq<Article>, imgs: ImageSet, name: string, limit: int) {
    && Bodies(calls) == articles
    && Numbered(calls, name)
    && UnderBudget(calls, imgs, limit)
    && SplitsForced(calls, imgs, limit)
    && ImagesResolved(calls, imgs)
    && (calls != [] ==> Body(calls[|calls| - 1]) != [])
  }

  lemma BodiesAppend(calls: seq<AioCall>, c: AioCall)
    ensures Bodies(calls + [c]) == Bodies(calls) + Body(c)
  {
    assert (calls + [c])[..|calls|] == calls;
  }

  lemma PartAppend(arts: seq<Article>, a: Article, imgs: ImageSet)
    ensures PartSize(arts + [a], imgs) == PartSize(arts, imgs) + ArticleSize(a, imgs)
    ensures PartRefs(arts + [a]) == PartRefs(arts) + ArticleRefs(a)
  {
    assert (arts + [a])[..|arts|] == arts;
  }

  /** The state of the loop of lines 111-132 after the articles `done`:
      the parts emitted so far and the part being filled, with its image
      dict and its running size. */
  ghost predicate LoopState(calls: seq<AioCall>, artPart: seq<Article>, imgPart: ImageSet, total: int,
                            done: seq<Article>, imgs: ImageSet, name: string, limit: int)
  {
    && total == PartSize(artPart, imgs)
    && Bodies(calls) + artPart == done
    && Numbered(calls, name)
    && ImagesResolved(calls, imgs)
    && UnderBudget(calls, imgs, limit)
    && SplitsForced(calls, imgs, limit)
    && Names(imgPart) == Dedup(PartRefs(artPart)) && Resolved(imgPart, imgs)
    && (|artPart| >= 2 || (calls == [] && artPart != []) ==> total < limit)
    && (calls != [] ==>
          artPart != [] && PartSize(Body(calls[|calls| - 1]), imgs) + ArticleSize(artPart[0], imgs) >= limit)
  }

  /** Closing the current part (lines 118-122) keeps every property of the
      parts emitted so far and gives the new part its own. */
  lemma ClosePart(calls: seq<AioCall>, artPart: seq<Article>, imgPart: ImageSet, total: int,
                  done: seq<Article>, imgs: ImageSet, name: string, limit: int)
    requires LoopState(calls, artPart, imgPart, total, done, imgs, name, limit)
    ensures var closed := calls + [AioCall([Header(name, |calls| + 1)] + artPart, imgPart)];
      && Numbered(closed, name) && ImagesResolved(closed, imgs)
      && UnderBudget(closed, imgs, limit) && SplitsForced(closed, imgs, limit)
      && Bodies(closed) == done
  {
    var c := AioCall([Header(name, |calls| + 1)] + artPart, imgPart);
    assert Body(c) == artPart;
    BodiesAppend(calls, c);
    CloseNumbered(calls, c, name);
    CloseResolved(calls, c, imgs);
    CloseUnderBudget(calls, c, imgs, limit);
    CloseSplits(calls, c, imgs, limit);
  }

  lemma CloseNumbered(calls: seq<AioCall>, c: AioCall, name: string)
    requires Numbered(calls, name)
    requires c.articles != [] && c.articles[0] == Header(name, |calls| + 1)
    ensures Numbered(calls + [c], name)
  {
    assert forall k | 0 <= k < |calls| :: (calls + [c])[k] == calls[k];
  }

  lemma CloseResolved(calls: seq<AioCall>, c: AioCall, imgs: ImageSet)
    requires ImagesResolved(calls, imgs)
    requires Names(c.imgs) == Dedup(PartRefs(Body(c))) && Resolved(c.imgs, imgs)
    ensures ImagesResolved(calls + [c], imgs)
  {
    assert forall k | 0 <= k < |calls| :: (calls + [c])[k] == calls[k];
  }

  lemma CloseUnderBudget(calls: seq<AioCall>, c: AioCall, imgs: ImageSet, limit: int)
    requires UnderBudget(calls, imgs, limit)
    requires |Body(c)| >= 2 || (calls == [] && Body(c) != []) ==> PartSize(Body(c), imgs) < limit
    ensures UnderBudget(calls + [c], imgs, limit)
  {
    assert forall k | 0 <= k < |calls| :: (calls + [c])[k] == calls[k];
  }

  lemma CloseSplits(calls: seq<AioCall>, c: AioCall, imgs: ImageSet, limit: int)
    requires SplitsForced(calls, imgs, limit)
    requires calls != [] ==>
      Body(c) != [] && PartSize(Body(calls[|calls| - 1]), imgs) + ArticleSize(Body(c)[0], imgs) >= limit
    ensures SplitsForced(calls + [c], imgs, limit)
  {
    var closed := calls + [c];
    forall k | 0 < k < |closed|
      ensures Body(closed[k]) != []
      ensures PartSize(Body(closed[k - 1]), imgs) + ArticleSize(Body(closed[k])[0], imgs) >= limit
    {
      assert closed[k - 1] == calls[k - 1];
      if k < |calls| {
        assert closed[k] == calls[k];
      } else {
        assert closed[k] == c;
      }
    }
  }

  lemma SliceNext(articles: seq<Article>, i: nat)
    requires i < |articles|
    ensures articles[..i + 1] == articles[..i] + [articles[i]]
  {
  }

  /** A turn of the loop in which line 117 fires: the current part is
      closed and the article starts a new one. The primed parameters are
      the state after the turn. */
  lemma AdvanceClosing(calls: seq<AioCall>, artPart: seq<Article>, imgPart: ImageSet, total: int,
                       calls': seq<AioCall>, artPart': seq<Article>, imgPart': ImageSet, total': int,
                       articles: seq<Article>, i: nat, imgs: ImageSet, name: string, limit: int,
                       artImgs: seq<string>, size: int)
    requires i < |articles|
    requires LoopState(calls, artPart, imgPart, total, articles[..i], imgs, name, limit)
    requires artImgs == ArticleRefs(articles[i]) && size == ArticleSize(articles[i], imgs)
    requires total + size >= limit
    requires calls' == calls + [AioCall([Header(name, |calls| + 1)] + artPart, imgPart)]
    requires artPart' == [articles[i]] && imgPart' == Merge([], artImgs, imgs) && total' == size
    ensures LoopState(calls', artPart', imgPart', total', articles[..i + 1], imgs, name, limit)
  {
    var a := articles[i];
    SliceNext(articles, i);
    ClosePart(calls, artPart, imgPart, total, articles[..i], imgs, name, limit);
    MergeNames([], [], artImgs, imgs);
    PartAppend([], a, imgs);
    assert [] + [a] == [a] && [] + artImgs == artImgs;
    assert Body(calls'[|calls'| - 1]) == artPart;
  }

  /** A turn of the loop in which line 117 does not fire: the article joins
      the current part. */
  lemma AdvanceJoining(calls: seq<AioCall>, artPart: seq<Article>, imgPart: ImageSet, total: int,
                       artPart': seq<Article>, imgPart': ImageSet, total': int,
                       articles: seq<Article>, i: nat, imgs: ImageSet, name: string, limit: int,
                       artImgs: seq<string>, size: int)
    requires i < |articles|
    requires LoopState(calls, artPart, imgPart, total, articles[..i], imgs, name, limit)
    requires artImgs == ArticleRefs(articles[i]) && size == ArticleSize(articles[i], imgs)
    requires total + size < limit
    requires artPart' == artPart + [articles[i]] && imgPart' == Merge(imgPart, artImgs, imgs) && total' == total + size
    ensures LoopState(calls, artPart', imgPart', total', articles[..i + 1], imgs, name, limit)
  {
    var a := articles[i];
    SliceNext(articles, i);
    MergeNames(imgPart, PartRefs(artPart), artImgs, imgs);
    PartAppend(artPart, a, imgs);
    assert Bodies(calls) + (artPart + [a]) == articles[..i] + [a];
    if artPart != [] {
      assert (artPart + [a])[0] == artPart[0];
    }
  }

  /** Before the first article nothing is emitted and the current part is
      empty. */
  lemma StartState(articles: seq<Article>, imgs: ImageSet, name: string, limit: int)
    ensures LoopState([], [], [], 0, articles[..0], imgs, name, limit)
  {
    assert articles[..0] == [];
  }

  /** After the last article (lines 133-138): a non-empty current part is
      closed too, and the parts then have every property of a split run. */
  lemma Finish(calls: seq<AioCall>, artPart: seq<Article>, imgPart: ImageSet, total: int, final: seq<AioCall>,
               articles: seq<Article>, imgs: ImageSet, name: string, limit: int)
    requires LoopState(calls, artPart, imgPart, total, articles[..|articles|], imgs, name, limit)
    requires artPart == [] ==> calls == []
    requires final == if artPart != [] then calls + [AioCall([Header(name, |calls| + 1)] + artPart, imgPart)] else calls
    ensures GreedySplit(final, articles, imgs, name, limit)
  {
    assert articles[..|articles|] == articles;
    if artPart != [] {
      ClosePart(calls, artPart, imgPart, total, articles, imgs, name, limit);
    }
  }

  /** The bodies, read from the front: the first part's body, then the rest. */
  lemma {:induction false} BodiesFront(calls: seq<AioCall>)
    requires calls != []
    ensures Bodies(calls) == Body(calls[0]) + Bodies(calls[1..])
    decreases |calls|
  {
    if |calls| > 1 {
      var init := calls[..|calls| - 1];
      BodiesFront(init);
      assert init[1..] == calls[1..][..|calls| - 2];
      assert init[0] == calls[0];
    } else {
      assert calls[1..] == [];
      assert calls[..0] == [];
    }
  }

  /** The size of a run, read from the front. */
  lemma {:induction false} PartSizeFront(arts: seq<Article>, imgs: ImageSet)
    requires arts != []
    ensures PartSize(arts, imgs) == ArticleSize(arts[0], imgs) + PartSize(arts[1..], imgs)
    decreases |arts|
  {
    var n := |arts|;
    if n > 1 {
      var init, tail := arts[..n - 1], arts[1..];
      PartSizeFront(init, imgs);
      assert init[0] == arts[0];
      assert init[1..] == tail[..n - 2];
      assert tail[n - 2] == arts[n - 1];
      assert PartSize(tail, imgs) == PartSize(tail[..n - 2], imgs) + ArticleSize(arts[n - 1], imgs);
      assert PartSize(arts, imgs) == PartSize(init, imgs) + ArticleSize(arts[n - 1], imgs);
    } else {
      assert arts[1..] == [];
      assert arts[..0] == [];
    }
  }

  /** When the first `j` parts are empty and every later part holds exactly
      one article, part `k` holds article `k - j`. */
  lemma {:induction false} Singletons(calls: seq<AioCall>, j: nat)
    requires j <= |calls|
    requires forall k | 0 <= k < j :: Body(calls[k]) == []
    requires forall k | j <= k < |calls| :: |Body(calls[k])| == 1
    ensures |Bodies(calls)| == |calls| - j
    ensures forall k | j <= k < |calls| :: Body(calls[k]) == [Bodies(calls)[k - j]]
    decreases |calls|
  {
    if |calls| > j {
      var init := calls[..|calls| - 1];
      Singletons(init, j);
      assert forall k | 0 <= k < |init| :: init[k] == calls[k];
      var last := calls[|calls| - 1];
      assert Bodies(calls) == Bodies(init) + Body(last);
    } else if calls != [] {
      EmptyBodies(calls);
    }
  }

  lemma {:induction false} EmptyBodies(calls: seq<AioCall>)
    requires forall k | 0 <= k < |calls| :: Body(calls[k]) == []
    ensures Bodies(calls) == []
    decreases |calls|
  {
    if calls != [] {
      var init := calls[..|calls| - 1];
      assert forall k | 0 <= k < |init| :: init[k] == calls[k];
      EmptyBodies(init);
    }
  }

  /** The first part holds only its header exactly when the first article
      alone already reaches the limit: line 117 then fires before anything
      was added. */
  lemma FirstPartHeaderOnly(calls: seq<AioCall>, articles: seq<Article>, imgs: ImageSet, name: string, limit: int)
    requires GreedySplit(calls, articles, imgs, name, limit) && articles != []
    ensures Body(calls[0]) == [] <==> ArticleSize(articles[0], imgs) >= limit
  {
    BodiesFront(calls);
    var first := Body(calls[0]);
    if first == [] {
      assert |calls| >= 2;
      BodiesFront(calls[1..]);
      assert calls[1..][0] == calls[1];
      assert Body(calls[1])[0] == articles[0];
      assert PartSize(first, imgs) == 0;
    } else {
      assert first[0] == articles[0];
      PartSizeFront(first, imgs);
    }
  }

  /** A limit of zero or less (such as the -1 of an unreadable limit string)
      splits every article off on its own, after a first part holding only
      its header. */
  lemma NonPositiveLimit(calls: seq<AioCall>, articles: seq<Article>, imgs: ImageSet, name: string, limit: int)
    requires GreedySplit(calls, articles, imgs, name, limit) && articles != [] && limit <= 0
    ensures |calls| == |articles| + 1
    ensures Body(calls[0]) == []
    ensures forall k | 0 <= k < |articles| :: Body(calls[k + 1]) == [articles[k]]
  {
    assert calls != [];
    NoRoomBelowZero(calls, imgs, limit);
    Singletons(calls, 1);
    forall k | 0 <= k < |articles|
      ensures Body(calls[k + 1]) == [articles[k]]
    {
      assert Body(calls[k + 1]) == [Bodies(calls)[k + 1 - 1]];
    }
  }

  /** Below a limit of zero or less, the first part is header-only and every
      later part holds one article. */
  lemma NoRoomBelowZero(calls: seq<AioCall>, imgs: ImageSet, limit: int)
    requires UnderBudget(calls, imgs, limit) && SplitsForced(calls, imgs, limit) && limit <= 0
    ensures calls != [] ==> Body(calls[0]) == []
    ensures forall k | 1 <= k < |calls| :: |Body(calls[k])| == 1
  {
    forall k | 1 <= k < |calls|
      ensures |Body(calls[k])| == 1
    {
      assert Body(calls[k]) != [];
      assert |Body(calls[k])| < 2;
    }
  }

  /** When every article's size is at least half the limit and below it, no
      two articles share a part and no part is header-only: one article per
      part. */
  lemma HalfLimitArticles(calls: seq<AioCall>, articles: seq<Article>, imgs: ImageSet, name: string, limit: int)
    requires GreedySplit(calls, articles, imgs, name, limit) && articles != []
    requires forall i | 0 <= i < |articles| :: limit <= 2 * ArticleSize(articles[i], imgs) && ArticleSize(articles[i], imgs) < limit
    ensures |calls| == |articles|
    ensures forall k | 0 <= k < |articles| :: Body(calls[k]) == [articles[k]]
  {
    FirstPartHeaderOnly(calls, articles, imgs, name, limit);
    forall k | 0 <= k < |calls|
      ensures |Body(calls[k])| == 1
    {
      if |Body(calls[k])| >= 2 {
        BodyArticles(calls, k);
        NoPairUnderLimit(Body(calls[k]), articles, imgs, limit);
      }
    }
    Singletons(calls, 0);
  }

  /** Two or more articles, each at least half the limit, reach the limit. */
  lemma NoPairUnderLimit(b: seq<Article>, articles: seq<Article>, imgs: ImageSet, limit: int)
    requires |b| >= 2
    requires forall a | a in b :: a in articles
    requires forall i | 0 <= i < |articles| :: limit <= 2 * ArticleSize(articles[i], imgs)
    ensures PartSize(b, imgs) >= limit
  {
    PartSizeFront(b, imgs);
    PartSizeFront(b[1..], imgs);
    assert b[1..][0] == b[1];
    assert b[0] in b && b[1] in b;
    var i :| 0 <= i < |articles| && articles[i] == b[0];
    var j :| 0 <= j < |articles| && articles[j] == b[1];
  }

  /** The file a part is written to. `gen_epub_aio` is called without a
      name or a path, so the part's name is its header title and its path
      the escaped header title with '.epub' appended. */
  function PartTarget(name: string, k: nat): Target {
    var title := name + " PT" + NatToString(k);
    Target(title, FnameEscape(title) + ".epub")
  }

  /** The `img_toc` of each part lists the images its articles refer to,
      each once, in order of first reference. */
  lemma PartImgToc(calls: seq<AioCall>, articles: seq<Article>, imgs: ImageSet, name: string, limit: int)
    requires GreedySplit(calls, articles, imgs, name, limit)
    ensures forall k | 0 <= k < |calls| :: ImgToc(calls[k].imgs) == Dedup(PartRefs(Body(calls[k])))
  {
    forall k | 0 <= k < |calls|
      ensures ImgToc(calls[k].imgs) == Dedup(PartRefs(Body(calls[k])))
    {
      assert ImgToc(calls[k].imgs) == Names(calls[k].imgs);
    }
  }

  /** Each part of a split run gets the name and path of its header. */
  lemma PartTargets(calls: seq<AioCall>, articles: seq<Article>, imgs: ImageSet, name: string, limit: int)
    requires GreedySplit(calls, articles, imgs, name, limit)
    ensures forall k | 0 <= k < |calls| :: Naming(calls[k].articles, "", "") == Some(PartTarget(name, k + 1))
  {
    forall k | 0 <= k < |calls|
      ensures Naming(calls[k].articles, "", "") == Some(PartTarget(name, k + 1))
    {
      DefaultPath(name + " PT" + NatToString(k + 1));
    }
  }

  /** Different parts are written to different files, so no part overwrites
      another: equal paths mean equal part numbers. */
  lemma PartPathInjective(name: string, j: nat, k: nat)
    requires PartTarget(name, j).path == PartTarget(name, k).path
    ensures j == k
  {
    var e := FnameEscape(name);
    var dj, dk := NatToString(j), NatToString(k);
    EscapedPartTitle(name, dj);
    EscapedPartTitle(name, dk);
    var p := PartTarget(name, j).path;
    assert p == e + " PT" + dj + ".epub";
    assert p == e + " PT" + dk + ".epub";
    assert |dj| == |dk|;
    assert dj == p[|e| + 3..|e| + 3 + |dj|];
    assert dk == p[|e| + 3..|e| + 3 + |dk|];
    NatToStringInjective(j, k);
  }

  /** Escaping a part title leaves its " PT" and number alone. */
  lemma EscapedPartTitle(name: string, digits: string)
    requires AllDigits(digits)
    ensures FnameEscape(name + " PT" + digits) == FnameEscape(name) + " PT" + digits
  {
    var tail := " PT" + digits;
    assert name + " PT" + digits == name + tail;
    FnameEscapeConcat(name, tail);
    forall i | 0 <= i < |tail|
      ensures !IsReserved(tail[i])
    {
      if i >= 3 {
        assert tail[i] == digits[i - 3];
      } else {
        assert tail[i] == " PT"[i];
        assert i == 0 || i == 1 || i == 2;
      }
    }
    FnameEscapeFixedPoint(tail);
  }

  /** Every article of a part is one of the articles split. */
  lemma {:induction false} BodyArticles(calls: seq<AioCall>, k: nat)
    requires k < |calls|
    ensures forall a | a in Body(calls[k]) :: a in Bodies(calls)
    decreases |calls|
  {
    var init := calls[..|calls| - 1];
    if k < |calls| - 1 {
      BodyArticles(init, k);
      assert init[k] == calls[k];
    }
  }

  /** The split run of lines 107-138: walk the articles once, closing the
      current part (under the header `{name} PT{ipt}`) whenever the running
      size plus the next article's size reaches `limit`, and close the last
      part if it holds anything. */
  method Paginate(articles: seq<Article>, imgs: ImageSet, name: string, limit: int)
    returns (calls: seq<AioCall>)
    ensures GreedySplit(calls, articles, imgs, name, limit)
  {
    calls := [];
    var artPart: seq<Article> := [];
    var imgPart: ImageSet := [];
    var total := 0;
    var ipt := 1;
    StartState(articles, imgs, name, limit);
    for i := 0 to |articles|
      invariant ipt == |calls| + 1
      invariant i > 0 <==> artPart != []
      invariant i == 0 ==> calls == []
      invariant LoopState(calls, artPart, imgPart, total, articles[..i], imgs, name, limit)
    {
      var a := articles[i];
      var artImgs := FindImageRefs(a.content);
      var size := RefsSize(artImgs, imgs);
      ArticleSizeOf(a, artImgs, size, imgs);
      ghost var calls0, artPart0, imgPart0, total0 := calls, artPart, imgPart, total;
      ghost var fired := total + size >= limit;
      if total + size >= limit {
        calls := calls + [AioCall([Header(name, ipt)] + artPart, imgPart)];
        artPart := [];
        imgPart := [];
        total := 0;
        ipt := ipt + 1;
      }
      artPart := artPart + [a];
      imgPart := Merge(imgPart, artImgs, imgs);
      total := total + size;
      if fired {
        AdvanceClosing(calls0, artPart0, imgPart0, total0, calls, artPart, imgPart, total,
                       articles, i, imgs, name, limit, artImgs, size);
      } else {
        AdvanceJoining(calls0, artPart0, imgPart0, total0, artPart, imgPart, total,
                       articles, i, imgs, name, limit, artImgs, size);
      }
    }
    ghost var calls0 := calls;
    if artPart != [] {
      calls := calls + [AioCall([Header(name, ipt)] + artPart, imgPart)];
    }
    Finish(calls0, artPart, imgPart, total, calls, articles, imgs, name, limit);
  }

  /** `gen_epub_paging(articles, imgs, name, limit=limit)`. The result lists
      the `gen_epub_aio` calls in order; the error is the IndexError of line
      92. */
  method GenEpubPaging(articles: seq<Article>, imgs: ImageSet, name: string, limit: string, compressedLen: string -> nat)
    returns (r: Result<seq<AioCall>, Error>)
    ensures r.Failure? <==> name == "" && articles == []
    ensures r.Success? && WholeSetSize(articles, imgs, compressedLen) <= SizeStrToInt(limit) ==>
      r.value == [AioCall(articles, imgs)]
    ensures r.Success? && WholeSetSize(articles, imgs, compressedLen) > SizeStrToInt(limit) ==>
      GreedySplit(r.value, articles, imgs, ResolveName(articles, name).value, SizeStrToInt(limit))
  {
    var resolved := ResolveName(articles, name);
    if resolved.None? {
      return Failure(IndexError);
    }
    var bound := SizeStrToInt(limit);
    if WholeSetSize(articles, imgs, compressedLen) <= bound {
      return Success([AioCall(articles, imgs)]);
    }
    var calls := Paginate(articles, imgs, resolved.value, bound);
    return Success(calls);
  }
}
