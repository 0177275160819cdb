# GenEpub paging and naming, modelled in Dafny

GenEpub turns a list of articles (each a title and an HTML content string)
plus a dictionary of image files into EPUB archives. This project models
the decision-making core of `GenEpub/__init__.py`:

- `gen_epub_paging` decides whether everything fits in one archive. When it
  does not, it walks the articles once and cuts them into numbered parts,
  each led by a header article `"{name} PT{k}"`. Each part is handed to
  `gen_epub_aio`. The model is the method `Paging.GenEpubPaging`, which
  returns the list of `gen_epub_aio` calls in order. Its loop is
  `Paging.Paginate`, proved against the predicate `Paging.GreedySplit`.
- `size_str_to_int` parses human-readable size limits such as `"50m"`
  (module `SizeLimit`).
- `fname_escape` and `is_img` are the file-name helpers (module `FileNames`).
- The pure naming logic of `gen_epub_aio` (module `Archive`):
  - the book name and the output path;
  - the zero-padded page file names;
  - the two tables of contents.
- `Images` holds the image dictionary, modelled as a sequence in insertion
  order (the order `img_toc` lists it in). It also holds the
  `re.findall` scan of an article's content for image references.
- `Decimal` holds `str(n)` on naturals and the values of digit strings.
- `Wrappers` holds `Option` and `Result`.

Python's `name or ...` treats `None` and `""` alike, so an absent name or
path is the empty string in the model. The `IndexError` that
`articles[0]` raises when there is neither a name nor an article is the
`Failure` / `None` case.

The size check at line 117 closes the current part whenever the running
size plus the next article's size reaches the limit, even when the part
holds no article yet. So when the first article alone reaches the limit, or the
limit is `-1`, the first part holds only its header (`FirstPartHeaderOnly`,
`NonPositiveLimit`).

## Model

| member | source | states |
|---|---|---|
| FileNames.FnameEscape | GenEpub/__init__.py:25-26 | the result has the input's length; each of `\ / : * ? " < > \|` becomes `-`; every other character stays in place; no reserved character remains |
| FileNames.FnameEscapeIdempotent | GenEpub/__init__.py:25-26 | escaping twice equals escaping once |
| FileNames.FnameEscapeFixedPoint | GenEpub/__init__.py:25-26 | a name is left unchanged exactly when it holds no reserved character |
| FileNames.FnameEscapeConcat | GenEpub/__init__.py:25-26 | escaping distributes over concatenation (the substitution is per character) |
| FileNames.IsImg | GenEpub/__init__.py:21 | true exactly when the name ends with a dot and one of jpg, jpeg, gif, png, bmp, webp, tiff |
| FileNames.IsImgPrefixed | GenEpub/__init__.py:21 | the pattern is anchored only at the end, so any prefix keeps an image name an image name |
| Decimal.NatToString | GenEpub/__init__.py:49 | `str(n)` is at least one digit, has no leading zero unless it is "0", and reads back as `n` |
| Decimal.NatToStringInjective | GenEpub/__init__.py:119 | different numbers have different decimal strings |
| Decimal.NatToStringLengthMonotone | GenEpub/__init__.py:49 | a smaller number never has more digits, so `len(str(i)) <= len(str(len(articles)))` |
| SizeLimit.UnitFactorKeys | GenEpub/__init__.py:143-159 | the letters with a factor are exactly the letters of `suf`, "kmgtpezybndcx", and each such factor is at least 2^10 |
| SizeLimit.UnitFactorsAscend | GenEpub/__init__.py:143-158 | 'k' is 2^10 and each later letter's factor is 1024 times the one before, except that 'z' repeats the factor of 'e' |
| SizeLimit.Lower | GenEpub/__init__.py:160 | `s.lower()` keeps the length, maps each character by itself, and leaves no upper-case ASCII letter |
| SizeLimit.Factor | GenEpub/__init__.py:143-158 | every factor in the table, and the empty suffix's 1, is at least 1 |
| SizeLimit.DigitRun | GenEpub/__init__.py:160 | the leading run of `\d`: all digits, followed by a non-digit or the end |
| SizeLimit.ParseNumber | GenEpub/__init__.py:160 | a match of `\d+(?:\.\d+)?` gives non-empty whole digits and the fraction digits, which spell the input back |
| SizeLimit.SplitSuffix | GenEpub/__init__.py:160 | the optional last-letter suffix group: the two pieces concatenate to the input and the suffix is empty or a key |
| SizeLimit.Parse | GenEpub/__init__.py:160 | a successful match yields a valid literal whose text is exactly the input |
| SizeLimit.SizeStrToInt | GenEpub/__init__.py:142-165 | the result is -1 or non-negative |
| SizeLimit.ParseText | GenEpub/__init__.py:160 | every valid literal is matched and parsed back into itself |
| SizeLimit.SizeStrToIntRejects | GenEpub/__init__.py:160-161 | -1 exactly when the lower-cased input is not digits, optionally a dot and digits, then at most one unit letter |
| SizeLimit.SizeStrToIntAccepts | GenEpub/__init__.py:162-165 | on a match the result is `trunc(number * factor_map[suffix])` and is not negative |
| SizeLimit.BytesTruncates | GenEpub/__init__.py:162-165 | the integer computation of a literal's size equals the truncation of the exact product |
| SizeLimit.LowerIdempotent | GenEpub/__init__.py:160 | lower-casing twice is lower-casing once |
| SizeLimit.SizeStrToIntLowered | GenEpub/__init__.py:160 | the input and its lower-cased form give the same result, so the letter case of a unit does not matter |
| SizeLimit.ExaZettaCollide | GenEpub/__init__.py:150-151 | 'e' and 'z' give identical values after any text, in either case |
| SizeLimit.SameFactorSuffix | GenEpub/__init__.py:164-165 | two unit letters with equal factors give equal results after any text |
| SizeLimit.SizeOfLowercase | GenEpub/__init__.py:160-165 | a lower-case string that spells a literal yields that literal's size |
| SizeLimit.SizeOfTen | GenEpub/__init__.py:144 | "10" gives 10: no suffix means factor 1 |
| SizeLimit.SizeOfOneKilo | GenEpub/__init__.py:145 | "1k" gives 1024 |
| SizeLimit.SizeOfFiftyMega | GenEpub/__init__.py:146 | "50m", the default limit, gives 50 * 2^20 |
| SizeLimit.SizeOfFiftyMegaUpper | GenEpub/__init__.py:160 | "50M" gives 50 * 2^20 too |
| SizeLimit.SizeOfFractionalGiga | GenEpub/__init__.py:162-165 | "2.5g" gives 2684354560 = int(2.5 * 2^30) |
| SizeLimit.SizeOfEmpty | GenEpub/__init__.py:161 | "" gives -1 |
| SizeLimit.SizeOfWord | GenEpub/__init__.py:161 | "bogus" gives -1 |
| SizeLimit.SizeOfLeadingDot | GenEpub/__init__.py:161 | ".5" gives -1: digits are needed before the dot |
| SizeLimit.SizeOfTrailingDot | GenEpub/__init__.py:161 | "1." gives -1: digits are needed after the dot |
| Images.Lookup | GenEpub/__init__.py:113-115 | `imgs.get(k, b'')`: empty bytes for a missing key, the stored entry otherwise |
| Images.Put | GenEpub/__init__.py:128-131 | a dict assignment: the key then holds the new value; an existing key keeps its place and a new key goes last; every entry under another key is kept and none is added |
| Images.Merge | GenEpub/__init__.py:128-131 | after `update`, every referenced name holds `imgs.get(name, b'')`; entries under names not referenced are kept; every entry is an old one or such a lookup |
| Images.Dedup | GenEpub/__init__.py:128-131 | the names in first-occurrence order: the same names, each once |
| Images.MergeNames | GenEpub/__init__.py:128-131 | `update` with the references keeps the keys equal to the distinct referenced names in first-reference order, each holding `imgs.get(name, b'')` |
| Images.FindImageRefs | GenEpub/__init__.py:112 | every name found is 32 word characters plus ".png", and so an image name for `is_img` |
| Images.FindImageRefsSound | GenEpub/__init__.py:112 | every name found is captured by a match of the pattern somewhere in the content |
| Images.FindImageRefsNone | GenEpub/__init__.py:112 | nothing is found exactly when the pattern matches at no position of the content |
| Images.FindImageRefsSkip | GenEpub/__init__.py:112 | text in which no match starts contributes nothing: the scan gives the same names without it |
| Images.FindImageRefsAfter | GenEpub/__init__.py:112 | a reference preceded by text with no match in it is the first name found, and the scan resumes right after the reference |
| Images.FindImageRefsOfRefs | GenEpub/__init__.py:112 | scanning text made of image references finds exactly the referenced names, in order |
| Archive.ResolveName | GenEpub/__init__.py:31 | the given name if any, else the first article's title; the IndexError exactly when there is neither |
| Archive.ResolvePath | GenEpub/__init__.py:32-34 | the path always ends with ".epub"; a given path ending with ".epub" is kept, any other given path gets ".epub" appended, and with no path it is the escaped name plus ".epub" |
| Archive.DefaultPath | GenEpub/__init__.py:32 | with no path, the path is the escaped name plus ".epub" and holds no reserved character |
| Archive.ResolvePathIdempotent | GenEpub/__init__.py:33-34 | settling a settled path again changes nothing |
| Archive.Naming | GenEpub/__init__.py:30-34 | the book name and path together, or the IndexError exactly when there is no name and no article |
| Archive.PadIndex | GenEpub/__init__.py:52 | `str(i).zfill(l)` is all digits, at least `l` wide, and reads back as `i` |
| Archive.ZFill | GenEpub/__init__.py:52 | padding a digit string keeps it digits |
| Archive.PadIndexRoundTrip | GenEpub/__init__.py:49-52 | each page number has exactly the width of `str(len(articles))` and reads back as the article's index |
| Archive.HtmlToc | GenEpub/__init__.py:60-66 | one entry per article, in order, carrying the article's title |
| Archive.HtmlTocFiles | GenEpub/__init__.py:60-66 | each entry's file is its padded index plus ".html", all of one length, and no two entries share a file |
| Archive.ImgToc | GenEpub/__init__.py:67-70 | one entry per image, entry i being the i-th key in dict order |
| Images.RefsSizeZero | GenEpub/__init__.py:113-116 | an article's image size is zero exactly when every image it refers to is missing or empty |
| Images.RefsSizeConcat | GenEpub/__init__.py:113-116 | the sizes of two runs of references add up, so a name referred to twice counts twice |
| Paging.ImageBytes | GenEpub/__init__.py:97 | the summed image bytes are at least each image's byte length |
| Paging.CompressedText | GenEpub/__init__.py:98-101 | the summed compressed lengths are at least each article's compressed title and content |
| Paging.WholeSetSize | GenEpub/__init__.py:97-101 | the whole-set estimate counts every image's bytes and every article's compressed text |
| Paging.HeaderTitle | GenEpub/__init__.py:118-121 | a part header has empty content and the title `{name} PT{k}`, from which `k` reads back |
| Paging.PartImgToc | GenEpub/__init__.py:67-70 | the `img_toc` of each part lists the images its articles refer to, once each, in order of first reference |
| Paging.PartAppend | GenEpub/__init__.py:127-132 | appending an article adds its image size to the part's size and its references to the part's references |
| Paging.AdvanceClosing | GenEpub/__init__.py:117-132 | a turn in which line 117 fires closes the part under the next header and starts a new part with the article, keeping the loop invariant |
| Paging.AdvanceJoining | GenEpub/__init__.py:127-132 | a turn in which line 117 does not fire adds the article and its images to the current part, keeping the loop invariant |
| Paging.Finish | GenEpub/__init__.py:133-138 | closing a non-empty last part turns the loop invariant into the full split property |
| Paging.Paginate | GenEpub/__init__.py:107-138 | the emitted parts satisfy `GreedySplit`: bodies concatenate to the articles; headers are numbered PT1, PT2, … without gaps; parts of two or more articles (or the first part) stay under the limit; every boundary is a firing of line 117; each part's images are exactly its references resolved with `imgs.get` |
| Paging.GenEpubPaging | GenEpub/__init__.py:90-138 | IndexError exactly when there is no name and no article; one unchanged call when the whole-set estimate is within the limit; a `GreedySplit` under the resolved name otherwise |
| Paging.FirstPartHeaderOnly | GenEpub/__init__.py:117-126 | the first part holds only its header exactly when the first article alone reaches the limit |
| Paging.NonPositiveLimit | GenEpub/__init__.py:117-126 | with a limit of 0 or -1 there is one part per article after a header-only first part |
| Paging.HalfLimitArticles | GenEpub/__init__.py:111-132 | when every article's size lies in [limit/2, limit), each part holds exactly one article and none is header-only |
| Paging.NoPairUnderLimit | GenEpub/__init__.py:113-117 | two or more articles, each at least half the limit, reach the limit together |
| Paging.PartTargets | GenEpub/__init__.py:118-126 | since `gen_epub_aio` gets no name or path, part k is named `{name} PTk` and written to `fname_escape` of that title plus ".epub" |
| Paging.PartPathInjective | GenEpub/__init__.py:118-126 | two parts share an output path only if they share a number, so no part overwrites another |
| Paging.EscapedPartTitle | GenEpub/__init__.py:26 | escaping a part title escapes the name and leaves " PT" and the number alone |

## Left out

- Archive construction: the ZIP writing, template rendering, asset reading and file output of lines 36-47, 50-57 and 72-88. These are I/O and library calls; only the names and tables of contents they consume are modelled.
- `uuid.uuid4()` and `datetime.now()` (lines 59, 74) only feed the rendered templates.
- `zlib.compress` (line 99) is the parameter `compressedLen` of `GenEpubPaging`, an arbitrary function to naturals.
- The `d` helper (line 23) joins file-system paths for the assets and is not part of this model.
- The `path` argument of `gen_epub_paging` and the path it computes at lines 93-95 are never used by the code, so the model does not take a path.
- SizeLimit.SizeStrToInt: `float(...) * factor` and `int(...)` are modelled as exact rational arithmetic truncated toward zero. IEEE double rounding, which differs for long mantissas and large factors, is not modelled.
- SizeLimit.SizeStrToInt: when the float product exceeds the largest double (about 1.8e308), as for a 310-digit number or a 275-digit one with `x`, it becomes infinite and `int` raises `OverflowError`. The model returns the exact truncated product there instead.
- SizeLimit.Lower: `str.lower` is modelled on ASCII letters only; other Unicode case mappings are not.
- SizeLimit.DigitRun: `\d` is ASCII digits only; Python also accepts other Unicode decimal digits.
- SizeLimit.Parse: `$` is modelled as the end of the string. Python's `$` also matches before a trailing newline, so "10\n" gives 10 in Python and -1 here. `is_img` has the same difference.
- Images.IsWordChar: `\w` is ASCII letters, digits and `_`; Python's `\w` also accepts other Unicode word characters.
- Images.Put: the image dict is a sequence of entries in insertion order, with at most one entry per key where the code keeps it so. Hashing and identity of Python objects are not modelled.
- Paging.GenEpubPaging: returns the `gen_epub_aio` calls instead of making them. What each call writes is described by the `Archive` functions applied to the call's articles and images (see `Paging.PartTargets`).
- Paging.GenEpubPaging: when a name is given, there are no articles and the whole-set estimate fits the limit, the code calls `gen_epub_aio([], imgs)`, which raises `IndexError` at line 31. The model returns that single call and leaves the error inside `gen_epub_aio` to `Archive.Naming`, which reports it as `None` for that call.
