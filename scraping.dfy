/** Turning the pages of the catalogue site into publication records:
    `get_books_url`, `get_element_info_values` and `get_book_data` of
    scraping.py. The HTML library is not modelled: a page is given as the
    values the library's queries return on it. */
module Scraping {
  import opened Wrappers
  import opened PyStr
  import opened Json

  // ---------------------------------------------------------------------
  // The page, as the HTML library presents it
  // ---------------------------------------------------------------------

  /** The `img` of the info region; `src` is `None` when the attribute is missing. */
  datatype Img = Img(src: Option<string>)

  /** The `div.group-info` region: its whole text and its first `img`, if any. */
  datatype Info = Info(text: string, img: Option<Img>)

  /** The field classes `get_book_data` queries inside the details region;
      `ClassName` is the HTML class each one stands for. */
  datatype FieldClass =
    | Autor | Editorial | Year | Materia | Traduccion | Resp
    | Derechos | Isbn | Issn | Pages | Diseno | Coleccion

  function ClassName(c: FieldClass): (r: string)
    ensures "field--name-field-" <= r
  {
    "field--name-field-" +
      match c
      case Autor => "autor"
      case Editorial => "editorial"
      case Year => "year"
      case Materia => "materia"
      case Traduccion => "traduccion"
      case Resp => "resp"
      case Derechos => "derechos"
      case Isbn => "isbn"
      case Issn => "issn"
      case Pages => "pages"
      case Diseno => "diseno"
      case Coleccion => "coleccion"
  }

  /** The queried classes are distinct, so a map from field class to items
      holds each queried `div` apart from the others. */
  lemma ClassNameInjective(a: FieldClass, b: FieldClass)
    ensures ClassName(a) == ClassName(b) ==> a == b
  {
    var p := "field--name-field-";
    if ClassName(a) == ClassName(b) {
      assert ClassName(a)[|p|..] == ClassName(b)[|p|..];
    }
  }

  /** The `div.group-details` region:
      - `downloads`: the `href` of each `a.btn-download`, in document order;
      - `fields`: for each field class whose `div` is present, the raw text of
        each `div.field__item` inside it, in document order;
      - `area`: the whole text of the `div.field--name-field-area`, if present. */
  datatype Details = Details(downloads: seq<string>, fields: map<FieldClass, seq<string>>, area: Option<string>)

  /** A book page: the text of its first `h1` and its two regions, each `None` when missing. */
  datatype Page = Page(heading: Option<string>, info: Option<Info>, details: Option<Details>)

  /** The first `a` inside one `div.list-info` of the catalogue's list page. */
  datatype Anchor = Anchor(href: Option<string>)
  datatype ListEntry = ListEntry(anchor: Option<Anchor>)

  /** The exceptions that escape `get_books_url` and `get_book_data`. */
  datatype ScrapeError =
    | NoEntryLink        // a list entry without `a`: AttributeError
    | NoHeading          // a page without `h1`: AttributeError
    | NoInfoRegion       // a page without `div.group-info`: AttributeError
    | NoCoverImage       // an info region without `img`: AttributeError
    | NoDetailsRegion    // a page without `div.group-details`: AttributeError
    | RightsNotText      // several rights items: TypeError from `str + list`
    | NoAreaField        // details without the area `div`: AttributeError
    | PagesNotText       // several page-count items: AttributeError from `list.replace`
    | PagesNotInteger    // page-count text that `int` refuses: ValueError
    | IllustratorNotText // several illustrator items: AttributeError from `list.strip`

  // ---------------------------------------------------------------------
  // The publication record
  // ---------------------------------------------------------------------

  /** The keys `get_book_data` stores in its dictionary; `KeyName` is the
      string each one is written as. */
  datatype Key =
    | Title | Images | Description | Links
    | Author | Publisher | Published | Subject | Translator | Imprint
    | Identifier | NumberOfPages | Illustrator | BelongsTo | Language

  function KeyName(k: Key): string
  {
    match k
    case Title => "title"
    case Images => "images"
    case Description => "description"
    case Links => "links"
    case Author => "author"
    case Publisher => "publisher"
    case Published => "published"
    case Subject => "subject"
    case Translator => "translator"
    case Imprint => "imprint"
    case Identifier => "identifier"
    case NumberOfPages => "numberOfPages"
    case Illustrator => "illustrator"
    case BelongsTo => "belongsTo"
    case Language => "language"
  }

  /** The key strings are distinct, so a map from `Key` stands for the
      dictionary keyed by those strings. */
  lemma KeyNameInjective(a: Key, b: Key)
    ensures KeyName(a) == KeyName(b) ==> a == b
  {
    if KeyName(a) == KeyName(b) {
      var n := KeyName(a);
      assert |n| == |KeyName(b)| && n[0] == KeyName(b)[0] && n[|n| - 1] == KeyName(b)[|n| - 1];
    }
  }

  /** The dictionary `get_book_data` returns. */
  type Record = map<Key, Json>

  // ---------------------------------------------------------------------
  // The list page
  // ---------------------------------------------------------------------

  /** `get_books_url`: the `href` of the first link of every list entry, in
      order; an entry without a link raises. */
  function BooksUrl(entries: seq<ListEntry>): (r: Result<seq<Option<string>>, ScrapeError>)
    ensures r.Ok? <==> forall i :: 0 <= i < |entries| ==> entries[i].anchor.Some?
    ensures r.Ok? ==> |r.value| == |entries|
    ensures r.Ok? ==> forall i :: 0 <= i < |entries| ==> r.value[i] == entries[i].anchor.value.href
    ensures r.Err? ==> r.error == NoEntryLink
  {
    if entries == [] then Ok([])
    else if entries[0].anchor.None? then Err(NoEntryLink)
    else
      match BooksUrl(entries[1..])
      case Err(e) => Err(e)
      case Ok(rest) => Ok([entries[0].anchor.value.href] + rest)
  }

  // ---------------------------------------------------------------------
  // Field extractor
  // ---------------------------------------------------------------------

  /** What `get_element_info_values` returns: `None`, a single string, or a
      list. The extractor only builds lists of two strings or more (see
      `ElementInfoValues`), so `Truthy` need not treat `Many([])` as Python
      treats an empty list. */
  datatype FieldValue = Absent | One(text: string) | Many(texts: seq<string>)

  /** Python truthiness of a value the extractor returned. */
  predicate Truthy(v: FieldValue)
  {
    v.Many? || (v.One? && v.text != "")
  }

  /** On every value the extractor returns, `Truthy` is Python's truth
      test: a non-empty string or a non-empty list. */
  lemma TruthyExtracted(fields: map<FieldClass, seq<string>>, c: FieldClass)
    ensures var v := ElementInfoValues(fields, c);
      Truthy(v) <==> (v.One? && v.text != "") || (v.Many? && v.texts != [])
  {
  }

  /** The strings a returned value holds, in order, whatever its shape. */
  function Texts(v: FieldValue): seq<string>
  {
    match v
    case Absent => []
    case One(s) => [s]
    case Many(ss) => ss
  }

  /** The items under a field class; a missing field `div` has none. */
  function Items(fields: map<FieldClass, seq<string>>, c: FieldClass): seq<string>
  {
    if c in fields then fields[c] else []
  }

  /** `get_element_info_values`: the stripped texts of the field's items,
      collapsed to `None` when there are none and to the bare string when
      there is exactly one. */
  function ElementInfoValues(fields: map<FieldClass, seq<string>>, c: FieldClass): (r: FieldValue)
    ensures r.Absent? <==> Items(fields, c) == []
    ensures r.One? <==> |Items(fields, c)| == 1
    ensures r.Many? ==> |r.texts| >= 2
  {
    var items := Items(fields, c);
    if items == [] then Absent
    else
      var texts := StripAll(items);
      if |texts| == 1 then One(texts[0]) else Many(texts)
  }

  /** `[item.strip() for item in items]` */
  function StripAll(items: seq<string>): (texts: seq<string>)
    ensures |texts| == |items|
    ensures forall i :: 0 <= i < |items| ==> texts[i] == Strip(items[i])
  {
    if items == [] then [] else [Strip(items[0])] + StripAll(items[1..])
  }

  /** Whatever its shape, the extracted value holds the stripped text of every
      item, one per item, in document order. */
  lemma ElementInfoValuesTexts(fields: map<FieldClass, seq<string>>, c: FieldClass)
    ensures var items := Items(fields, c);
      && |Texts(ElementInfoValues(fields, c))| == |items|
      && forall i :: 0 <= i < |items| ==> Texts(ElementInfoValues(fields, c))[i] == Strip(items[i])
  {
  }

  /** A present value as the record stores it: a string or a list of strings. */
  function FieldJson(v: FieldValue): Json
    requires !v.Absent?
  {
    if v.One? then JStr(v.text) else JArr(Strs(v.texts))
  }

  // ---------------------------------------------------------------------
  // Record builder: the individual decisions
  // ---------------------------------------------------------------------


  /** The field class a metadata key is copied from, as it is; `None` for
      the other keys. */
  function MetadataField(k: Key): Option<FieldClass>
  {
    match k
    case Author => Some(Autor)
    case Publisher => Some(Editorial)
    case Published => Some(Year)
    case Subject => Some(Materia)
    case Translator => Some(Traduccion)
    case Imprint => Some(Resp)
    case _ => None
  }

  const AcquisitionRel := "http://opds-spec.org/acquisition/open-access"
  const PdfType := "application/pdf"
  const EpubType := "application/epub+zip"
  const RightsLabel := "\n\nDerechos: "
  const PagesUnit := "páginas"

  /** The cover entry: a JPEG image whose `href` is `f'{path}{src}'`, where a
      missing `src` is formatted as the text `None`. */
  function CoverImage(path: string, src: Option<string>): (r: Json)
    ensures r.JObj? && r.fields.Keys == {"href", "type"}
    ensures r.fields["type"] == JStr("image/jpeg")
    ensures r.fields["href"].JStr? && path <= r.fields["href"].str
    ensures r.fields["href"].str[|path|..] == if src.Some? then src.value else "None"
  {
    var s := if src.Some? then src.value else "None";
    JObj(map["href" := JStr(path + s), "type" := JStr("image/jpeg")])
  }

  /** The description: the info text, left-stripped, up to its first newline. */
  function DescriptionText(infoText: string): (r: string)
    ensures r <= LStrip(infoText)
    ensures '\n' !in r
    ensures |r| < |LStrip(infoText)| ==> LStrip(infoText)[|r|] == '\n'
  {
    FirstLine(LStrip(infoText))
  }

  /** No `href` ends with both extensions. */
  lemma ExtensionsExclusive(href: string)
    ensures EndsWith(href, ".pdf") ==> !EndsWith(href, ".epub")
  {
    if EndsWith(href, ".pdf") {
      assert href[|href| - 1] == ".pdf"[3] == 'f';
      assert ".epub"[4] == 'b';
    }
  }

  /** The media type a download `href` is recognised by, if any: `.pdf`
      downloads are PDF, `.epub` downloads are EPUB, and nothing else is
      recognised. */
  function DownloadType(href: string): (r: Option<string>)
    ensures r == Some(PdfType) <==> EndsWith(href, ".pdf")
    ensures r == Some(EpubType) <==> EndsWith(href, ".epub")
    ensures r.None? <==> !EndsWith(href, ".pdf") && !EndsWith(href, ".epub")
  {
    ExtensionsExclusive(href);
    if EndsWith(href, ".pdf") then Some(PdfType)
    else if EndsWith(href, ".epub") then Some(EpubType)
    else None
  }

  /** The open-access acquisition link for a download `href` of the given type. */
  function AcquisitionLink(path: string, href: string, mediaType: string): Json
  {
    JObj(map["rel" := JStr(AcquisitionRel), "href" := JStr(path + href), "type" := JStr(mediaType)])
  }

  /** The link one download `href` contributes: the acquisition link of its
      type when it has one, and nothing otherwise. */
  function LinkFor(path: string, href: string): (r: seq<Json>)
    ensures |r| <= 1
    ensures r == [] <==> DownloadType(href).None?
    ensures r != [] ==> r[0] == AcquisitionLink(path, href, DownloadType(href).value)
  {
    match DownloadType(href)
    case None => []
    case Some(t) => [AcquisitionLink(path, href, t)]
  }

  /** The acquisition links of a list of download `href`s. */
  function DownloadLinks(path: string, hrefs: seq<string>): (r: seq<Json>)
    ensures |r| <= |hrefs|
  {
    if hrefs == [] then []
    else DownloadLinks(path, hrefs[..|hrefs| - 1]) + LinkFor(path, hrefs[|hrefs| - 1])
  }

  /** No link at all exactly when no `href` has a recognised extension. */
  lemma {:induction false} DownloadLinksEmpty(path: string, hrefs: seq<string>)
    ensures DownloadLinks(path, hrefs) == [] <==> forall i :: 0 <= i < |hrefs| ==> DownloadType(hrefs[i]).None?
  {
    if hrefs != [] {
      var init := hrefs[..|hrefs| - 1];
      DownloadLinksEmpty(path, init);
      assert forall i :: 0 <= i < |init| ==> init[i] == hrefs[i];
    }
  }

  /** Download links keep document order: the links of two runs of anchors
      are the links of the first run followed by those of the second. */
  lemma {:induction false} DownloadLinksConcat(path: string, a: seq<string>, b: seq<string>)
    ensures DownloadLinks(path, a + b) == DownloadLinks(path, a) + DownloadLinks(path, b)
    decreases |b|
  {
    if b == [] {
      assert a + b == a;
    } else {
      var b', last := b[..|b| - 1], b[|b| - 1];
      DownloadLinksConcat(path, a, b');
      assert (a + b)[..|a + b| - 1] == a + b';
      assert (a + b)[|a + b| - 1] == last;
      calc {
        DownloadLinks(path, a + b);
        DownloadLinks(path, a + b') + LinkFor(path, last);
        DownloadLinks(path, a) + DownloadLinks(path, b') + LinkFor(path, last);
        DownloadLinks(path, a) + (DownloadLinks(path, b') + LinkFor(path, last));
        DownloadLinks(path, a) + DownloadLinks(path, b);
      }
    }
  }

  /** A single anchor gives the link of its type, or nothing. */
  lemma {:induction false} DownloadLinksSingle(path: string, href: string)
    ensures EndsWith(href, ".pdf") ==> DownloadLinks(path, [href]) == [AcquisitionLink(path, href, PdfType)]
    ensures EndsWith(href, ".epub") ==> DownloadLinks(path, [href]) == [AcquisitionLink(path, href, EpubType)]
    ensures !EndsWith(href, ".pdf") && !EndsWith(href, ".epub") ==> DownloadLinks(path, [href]) == []
  {
    ExtensionsExclusive(href);
    assert [href][..0] == [];
  }

  /** The record keys of the metadata fields, in the order the source lists
      them. */
  const MetadataKeys: seq<Key> := [Author, Publisher, Published, Subject, Translator, Imprint]

  /** The extracted metadata (the `fields` dict of the source): each key
      paired with the value of its field, in order. */
  function MetadataValues(fields: map<FieldClass, seq<string>>): seq<(Key, FieldValue)>
  {
    Entries(fields, MetadataKeys)
  }

  /** The entries for `keys`, in order. */
  function Entries(fields: map<FieldClass, seq<string>>, keys: seq<Key>): (kvs: seq<(Key, FieldValue)>)
    requires forall k :: k in keys ==> MetadataField(k).Some?
    ensures |kvs| == |keys|
    ensures forall i :: 0 <= i < |keys| ==>
      kvs[i] == (keys[i], ElementInfoValues(fields, MetadataField(keys[i]).value))
  {
    if keys == [] then []
    else
      var last := keys[|keys| - 1];
      Entries(fields, keys[..|keys| - 1]) + [(last, ElementInfoValues(fields, MetadataField(last).value))]
  }

  /** The value of the last entry with key `k` that is not `None`, if any. */
  function LastPresent(kvs: seq<(Key, FieldValue)>, k: Key): (r: Option<FieldValue>)
    ensures r.Some? ==> !r.value.Absent?
  {
    if kvs == [] then None
    else
      var (k', v) := kvs[|kvs| - 1];
      if k' == k && !v.Absent? then Some(v) else LastPresent(kvs[..|kvs| - 1], k)
  }

  /** Each metadata key takes its field's extracted value, when there is one;
      no other key takes anything. */
  lemma {:induction false} MetadataLastPresent(fields: map<FieldClass, seq<string>>, k: Key)
    ensures LastPresent(MetadataValues(fields), k) ==
      match MetadataField(k)
      case None => None
      case Some(c) => if ElementInfoValues(fields, c).Absent? then None else Some(ElementInfoValues(fields, c))
  {
    MetadataKeysListed();
    EntriesLastPresent(fields, MetadataKeys, k);
  }

  /** The keys listed are exactly those copied from a field. */
  lemma MetadataKeysListed()
    ensures forall k :: k in MetadataKeys <==> MetadataField(k).Some?
  {
    forall k ensures k in MetadataKeys <==> MetadataField(k).Some? {
      match k
      case Author => assert MetadataKeys[0] == k;
      case Publisher => assert MetadataKeys[1] == k;
      case Published => assert MetadataKeys[2] == k;
      case Subject => assert MetadataKeys[3] == k;
      case Translator => assert MetadataKeys[4] == k;
      case Imprint => assert MetadataKeys[5] == k;
      case _ =>
    }
  }

  /** Every entry for a key holds that key's field, so the last present one
      is that field's value, if the key is listed and the value present. */
  lemma {:induction false} EntriesLastPresent(fields: map<FieldClass, seq<string>>, keys: seq<Key>, k: Key)
    requires forall k :: k in keys ==> MetadataField(k).Some?
    ensures LastPresent(Entries(fields, keys), k) ==
      if k in keys && !ElementInfoValues(fields, MetadataField(k).value).Absent?
      then Some(ElementInfoValues(fields, MetadataField(k).value))
      else None
  {
    if keys != [] {
      var init := keys[..|keys| - 1];
      var kvs := Entries(fields, keys);
      assert kvs[..|kvs| - 1] == Entries(fields, init);
      assert k in keys <==> k in init || k == keys[|keys| - 1];
      EntriesLastPresent(fields, init, k);
    }
  }

  /** `data[k] = v` for each entry whose value is not `None`: a key then
      holds the value of its last such entry, and keeps its value when it
      has none. */
  function AddPresent(data: Record, kvs: seq<(Key, FieldValue)>): (r: Record)
    ensures forall k :: Get(r, k) ==
                        if LastPresent(kvs, k).Some? then Some(FieldJson(LastPresent(kvs, k).value)) else Get(data, k)
  {
    if kvs == [] then data
    else
      var (k, v) := kvs[|kvs| - 1];
      var prev := AddPresent(data, kvs[..|kvs| - 1]);
      if v.Absent? then prev else prev[k := FieldJson(v)]
  }

  /** One more entry of the table added to the dictionary. */
  lemma {:induction false} AddPresentStep(data: Record, kvs: seq<(Key, FieldValue)>, j: nat)
    requires j < |kvs|
    ensures AddPresent(data, kvs[..j + 1]) ==
      if kvs[j].1.Absent? then AddPresent(data, kvs[..j])
      else AddPresent(data, kvs[..j])[kvs[j].0 := FieldJson(kvs[j].1)]
  {
    assert kvs[..j + 1][..j] == kvs[..j];
  }

  /** The rights clause appended to the description, when the rights value is truthy. */
  function AppendRights(description: string, rights: FieldValue): (r: Result<string, ScrapeError>)
    ensures r.Err? <==> rights.Many?
    ensures r.Err? ==> r.error == RightsNotText
    ensures r.Ok? ==> description <= r.value
    ensures r.Ok? ==> r.value[|description|..] == if Truthy(rights) then RightsLabel + rights.text else ""
  {
    if !Truthy(rights) then Ok(description)
    else if rights.Many? then Err(RightsNotText)
    else Ok(description + RightsLabel + rights.text)
  }

  /** The subject's values as a list: none, the single value, or the list's items. */
  function SubjectItems(subject: Option<Json>): seq<Json>
  {
    match subject
    case None => []
    case Some(JArr(items)) => items
    case Some(s) => [s]
  }

  /** Merging a non-empty area into the subject puts the area first and keeps
      every earlier value after it, in order; the result is a list exactly
      when there was a subject before. An empty area changes nothing. */
  function MergeArea(subject: Option<Json>, area: string): (r: Option<Json>)
    ensures area == "" ==> r == subject
    ensures area != "" ==> r.Some? && SubjectItems(r) == [JStr(area)] + SubjectItems(subject)
    ensures area != "" ==> (r.value.JArr? <==> subject.Some?)
  {
    if area == "" then subject
    else
      match subject
      case None => Some(JStr(area))
      case Some(JArr(items)) => Some(JArr([JStr(area)] + items))
      case Some(s) => Some(JArr([JStr(area), s]))
  }

  /** `f"{v}"` for a present value: the string itself, or the list's repr. */
  function Formatted(v: FieldValue): (r: string)
    requires !v.Absent?
    ensures v.One? ==> r == v.text
    ensures v.Many? ==> ReadList(r) == Some(v.texts)
  {
    if v.One? then v.text else ListReprRead(v.texts); ListRepr(v.texts)
  }

  /** The identifier: the ISBN urn whenever the ISBN is truthy, whatever the
      ISSN; else the ISSN urn when the ISSN is truthy; else none. */
  function IdentifierUrn(isbn: FieldValue, issn: FieldValue): (r: Option<string>)
    ensures r.None? <==> !Truthy(isbn) && !Truthy(issn)
    ensures Truthy(isbn) ==> r.value == "urn:ISBN:" + Formatted(isbn)
    ensures !Truthy(isbn) && Truthy(issn) ==> r.value == "urn:ISSN:" + Formatted(issn)
  {
    if Truthy(isbn) then Some("urn:ISBN:" + Formatted(isbn))
    else if Truthy(issn) then Some("urn:ISSN:" + Formatted(issn))
    else None
  }

  /** The page count: the integer left once every "páginas" is removed. */
  function PageCount(pages: FieldValue): (r: Result<Option<int>, ScrapeError>)
    ensures r == Ok(None) <==> !Truthy(pages)
    ensures r == Err(PagesNotText) <==> pages.Many?
    ensures r.Ok? && r.value.Some? ==> ParseInt(RemoveAll(pages.text, PagesUnit)) == r.value
    ensures r == Err(PagesNotInteger) <==>
      pages.One? && pages.text != "" && ParseInt(RemoveAll(pages.text, PagesUnit)).None?
  {
    if !Truthy(pages) then Ok(None)
    else if pages.Many? then Err(PagesNotText)
    else
      match ParseInt(RemoveAll(pages.text, PagesUnit))
      case None => Err(PagesNotInteger)
      case Some(n) => Ok(Some(n))
  }

  /** "350 páginas" and every other count written the same way, within
      the digit limit of `int`, read as the count. */
  lemma {:induction false} PageCountOfCount(n: nat)
    requires |ShowNat(n)| <= MaxStrDigits
    ensures PageCount(One(ShowNat(n) + " " + PagesUnit)) == Ok(Some(n))
  {
    var text := ShowNat(n) + " " + PagesUnit;
    PagesTextReduced(n);
    ParseShowNat(n);
    assert ParseInt(RemoveAll(text, PagesUnit)) == Some(n);
    assert Truthy(One(text));
  }

  /** A unit separator between the count and the unit survives the
      removal of the unit, and `int` then raises `ValueError`. */
  lemma {:induction false} PageCountUnitSeparator(n: nat)
    ensures PageCount(One(ShowNat(n) + "\U{1F}" + PagesUnit)) == Err(PagesNotInteger)
  {
    UnitRemoved(ShowNat(n), "\U{1F}");
    ParseIntKeepsUnitSeparator(n);
  }

  /** Digits and a separator followed by the unit: removing the unit leaves
      the digits and the separator. */
  lemma UnitRemoved(digits: string, sep: string)
    requires IsDigits(digits) && |sep| == 1 && sep[0] != PagesUnit[0]
    ensures RemoveAll(digits + sep + PagesUnit, PagesUnit) == digits + sep
  {
    assert PagesUnit[0] !in digits + sep by {
      assert forall i :: 0 <= i < |digits| ==> IsDigit(digits[i]);
      assert (digits + sep)[|digits|] == sep[0];
    }
    assert digits + sep + PagesUnit == (digits + sep) + (PagesUnit + "");
    RemoveAllSkips(digits + sep, PagesUnit + "", PagesUnit);
    RemoveAllFront("", PagesUnit);
  }

  /** A count with more digits than `int` converts raises `ValueError`. */
  lemma {:induction false} PageCountTooLong(n: nat)
    requires |ShowNat(n)| > MaxStrDigits
    ensures PageCount(One(ShowNat(n) + " " + PagesUnit)) == Err(PagesNotInteger)
  {
    PagesTextReduced(n);
    ParseShowNatTooLong(n);
  }

  /** Removing the unit from "<n> páginas" leaves the digits and a space,
      which `int` reads as the digits alone. */
  lemma {:induction false} PagesTextReduced(n: nat)
    ensures RemoveAll(ShowNat(n) + " " + PagesUnit, PagesUnit) == ShowNat(n) + " "
    ensures ParseInt(ShowNat(n) + " ") == ParseInt(ShowNat(n))
  {
    var digits := ShowNat(n);
    UnitRemoved(digits, " ");
    DigitNotSpace(digits[0]);
    DigitNotSpace(digits[|digits| - 1]);
    StripTrailing(digits, ' ', IsIntSpace);
    StripKeeps(digits, IsIntSpace);
  }

  /** The illustrators: the value, stripped of spaces, split on "/". The
      pieces are never empty as a list, hold no "/", and joined with "/"
      give the stripped text back. */
  function Illustrators(illustrator: FieldValue): (r: Result<Option<seq<string>>, ScrapeError>)
    ensures r == Ok(None) <==> !Truthy(illustrator)
    ensures r == Err(IllustratorNotText) <==> illustrator.Many?
    ensures r.Ok? && r.value.Some? ==>
      var names := r.value.value;
      && |names| >= 1
      && (forall i :: 0 <= i < |names| ==> '/' !in names[i])
      && Join(names, '/') == StripBy(illustrator.text, IsBlank)
  {
    if !Truthy(illustrator) then Ok(None)
    else if illustrator.Many? then Err(IllustratorNotText)
    else
      var stripped := StripBy(illustrator.text, IsBlank);
      JoinSplit(stripped, '/');
      Ok(Some(Split(stripped, '/')))
  }

  /** The collection: `{"collection": value}` when the value is truthy. */
  function Collection(coleccion: FieldValue): (r: Option<Json>)
    ensures r.Some? <==> Truthy(coleccion)
    ensures r.Some? ==> r.value == JObj(map["collection" := FieldJson(coleccion)])
  {
    if Truthy(coleccion) then Some(JObj(map["collection" := FieldJson(coleccion)])) else None
  }

  /** `data.get(key)`, with `None` for a missing key. */
  function Get(data: Record, key: Key): Option<Json>
  {
    if key in data then Some(data[key]) else None
  }

  /** `data[key] = value` when there is a value: that key then holds it, and
      every other key keeps its value. */
  function Put(data: Record, key: Key, value: Option<Json>): Record
  {
    if value.Some? then data[key := value.value] else data
  }

  // ---------------------------------------------------------------------
  // Record builder: the whole record
  // ---------------------------------------------------------------------

  /** The exception the last stage of `get_book_data` raises, if any, in
      the order it makes its checks: several page-count items, then a
      page count `int` refuses, then several illustrator items. */
  function CompletionError(fields: map<FieldClass, seq<string>>): Option<ScrapeError>
  {
    var pages := ElementInfoValues(fields, Pages);
    if pages.Many? then Some(PagesNotText)
    else if pages.One? && pages.text != "" && ParseInt(RemoveAll(pages.text, PagesUnit)).None? then Some(PagesNotInteger)
    else if ElementInfoValues(fields, Diseno).Many? then Some(IllustratorNotText)
    else None
  }

  /** The exception the details region makes `get_book_data` raise, if
      any: several rights items, then a missing area `div`, then those of
      the last stage. */
  function DetailsError(d: Details): Option<ScrapeError>
  {
    if ElementInfoValues(d.fields, Derechos).Many? then Some(RightsNotText)
    else if d.area.None? then Some(NoAreaField)
    else CompletionError(d.fields)
  }

  /** A details region with the area `div` and none of the fields that can
      raise passes every check. */
  lemma PlainDetailsBuilt(downloads: seq<string>, fields: map<FieldClass, seq<string>>, area: string)
    requires Derechos !in fields && Pages !in fields && Diseno !in fields
    ensures DetailsError(Details(downloads, fields, Some(area))).None?
  {
  }

  /** The record `get_book_data` builds from the details region, given the
      keys already set from the heading and the info region. */
  function DetailsRecord(path: string, head: Record, d: Details): (r: Result<Record, ScrapeError>)
    ensures r.Ok? <==> DetailsError(d).None?
    ensures r.Err? ==> DetailsError(d) == Some(r.error)
  {
    AnnotatedRecord(AddPresent(WithLinks(head, DownloadLinks(path, d.downloads)), MetadataValues(d.fields)), d)
  }

  /** `data["links"] = links`, when there are links. */
  function WithLinks(data: Record, links: seq<Json>): (r: Record)
    ensures forall k :: Get(r, k) == if k == Links && links != [] then Some(JArr(links)) else Get(data, k)
  {
    if links == [] then data else data[Links := JArr(links)]
  }

  /** `data.get("description", "")`; the description is always a string. */
  function CurrentDescription(data: Record): (r: string)
    ensures Description in data && data[Description].JStr? ==> r == data[Description].str
    ensures Description !in data ==> r == ""
  {
    match Get(data, Description)
    case Some(JStr(text)) => text
    case _ => ""
  }

  /** The record once the download links and metadata fields are in: the
      rights clause and the area come next. */
  function AnnotatedRecord(data: Record, d: Details): (r: Result<Record, ScrapeError>)
    ensures r.Ok? <==> DetailsError(d).None?
    ensures r.Err? ==> DetailsError(d) == Some(r.error)
  {
    match AppendRights(CurrentDescription(data), ElementInfoValues(d.fields, Derechos))
    case Err(e) => Err(e)
    case Ok(description) =>
      if d.area.None? then Err(NoAreaField)
      else
        var data := if Truthy(ElementInfoValues(d.fields, Derechos)) then data[Description := JStr(description)] else data;
        CompleteRecord(Put(data, Subject, MergeArea(Get(data, Subject), d.area.value)), d.fields)
  }

  /** The rest of the record: identifier, page count, illustrators,
      collection and language. */
  function CompleteRecord(data: Record, fields: map<FieldClass, seq<string>>): (r: Result<Record, ScrapeError>)
    ensures r.Ok? <==> CompletionError(fields).None?
    ensures r.Err? ==> CompletionError(fields) == Some(r.error)
  {
    var id := IdentifierUrn(ElementInfoValues(fields, Isbn), ElementInfoValues(fields, Issn));
    var data := Put(data, Identifier, if id.Some? then Some(JStr(id.value)) else None);
    match PageCount(ElementInfoValues(fields, Pages))
    case Err(e) => Err(e)
    case Ok(pages) =>
      var data := Put(data, NumberOfPages, if pages.Some? then Some(JInt(pages.value)) else None);
      match Illustrators(ElementInfoValues(fields, Diseno))
      case Err(e) => Err(e)
      case Ok(names) =>
        var data := Put(data, Illustrator, if names.Some? then Some(JArr(Strs(names.value))) else None);
        var data := Put(data, BelongsTo, Collection(ElementInfoValues(fields, Coleccion)));
        Ok(data[Language := JStr("es")])
  }

  /** A value the extractor returned, as `data[k] = v` would store it when
      it is not `None`. */
  function Present(v: FieldValue): Option<Json>
  {
    if v.Absent? then None else Some(FieldJson(v))
  }

  /** The keys the last stage of the record builder may set. */
  predicate SetByCompletion(k: Key)
  {
    k == Identifier || k == NumberOfPages || k == Illustrator || k == BelongsTo || k == Language
  }

  /** What the last stage stores: the identifier, page count, illustrators
      and collection when there are any, and the language always; every
      other key keeps its value. */
  lemma CompleteRecordFields(data: Record, fields: map<FieldClass, seq<string>>)
    requires CompleteRecord(data, fields).Ok?
    ensures var r := CompleteRecord(data, fields).value;
      var id := IdentifierUrn(ElementInfoValues(fields, Isbn), ElementInfoValues(fields, Issn));
      var pages := PageCount(ElementInfoValues(fields, Pages));
      var names := Illustrators(ElementInfoValues(fields, Diseno));
      && pages.Ok? && names.Ok?
      && (forall k :: !SetByCompletion(k) ==> Get(r, k) == Get(data, k))
      && Get(r, Identifier) == (if id.Some? then Some(JStr(id.value)) else Get(data, Identifier))
      && Get(r, NumberOfPages) == (if pages.value.Some? then Some(JInt(pages.value.value)) else Get(data, NumberOfPages))
      && Get(r, Illustrator) == (if names.value.Some? then Some(JArr(Strs(names.value.value))) else Get(data, Illustrator))
      && Get(r, BelongsTo) == (if Truthy(ElementInfoValues(fields, Coleccion)) then Collection(ElementInfoValues(fields, Coleccion)) else Get(data, BelongsTo))
      && Get(r, Language) == Some(JStr("es"))
  {
    var id := IdentifierUrn(ElementInfoValues(fields, Isbn), ElementInfoValues(fields, Issn));
    var d1 := Put(data, Identifier, if id.Some? then Some(JStr(id.value)) else None);
    var pages := PageCount(ElementInfoValues(fields, Pages)).value;
    var d2 := Put(d1, NumberOfPages, if pages.Some? then Some(JInt(pages.value)) else None);
    var names := Illustrators(ElementInfoValues(fields, Diseno)).value;
    var d3 := Put(d2, Illustrator, if names.Some? then Some(JArr(Strs(names.value))) else None);
    var d4 := Put(d3, BelongsTo, Collection(ElementInfoValues(fields, Coleccion)));
    assert CompleteRecord(data, fields) == Ok(d4[Language := JStr("es")]);
    CompletionKeys(data, if id.Some? then Some(JStr(id.value)) else None,
      if pages.Some? then Some(JInt(pages.value)) else None,
      if names.Some? then Some(JArr(Strs(names.value))) else None,
      Collection(ElementInfoValues(fields, Coleccion)));
  }

  /** The last stage's writes, whatever the values written. */
  lemma CompletionKeys(data: Record, id: Option<Json>, pages: Option<Json>, names: Option<Json>, collection: Option<Json>)
    ensures
      var r := Put(Put(Put(Put(data, Identifier, id), NumberOfPages, pages), Illustrator, names), BelongsTo, collection)[Language := JStr("es")];
      && (forall k :: !SetByCompletion(k) ==> Get(r, k) == Get(data, k))
      && Get(r, Identifier) == (if id.Some? then id else Get(data, Identifier))
      && Get(r, NumberOfPages) == (if pages.Some? then pages else Get(data, NumberOfPages))
      && Get(r, Illustrator) == (if names.Some? then names else Get(data, Illustrator))
      && Get(r, BelongsTo) == (if collection.Some? then collection else Get(data, BelongsTo))
      && Get(r, Language) == Some(JStr("es"))
  {
  }

  /** A page with the heading, the info region, its image and the details
      region that `get_book_data` looks up before the details region. */
  predicate Complete(page: Page)
  {
    page.heading.Some? && page.info.Some? && page.info.value.img.Some? && page.details.Some?
  }

  /** `get_book_data`: the publication record of one book page, or the
      exception the page makes it raise; the missing parts of the page are
      reported in the order the source looks for them. */
  function BookRecord(path: string, page: Page): (r: Result<Record, ScrapeError>)
    ensures page.heading.None? ==> r == Err(NoHeading)
    ensures page.heading.Some? && page.info.None? ==> r == Err(NoInfoRegion)
    ensures page.heading.Some? && page.info.Some? && page.info.value.img.None? ==> r == Err(NoCoverImage)
    ensures page.heading.Some? && page.info.Some? && page.info.value.img.Some? && page.details.None? ==>
      r == Err(NoDetailsRegion)
    ensures r.Ok? ==> Complete(page)
    ensures Complete(page) ==>
      (r.Ok? <==> DetailsError(page.details.value).None?) && (r.Err? ==> DetailsError(page.details.value) == Some(r.error))
  {
    if page.heading.None? then Err(NoHeading)
    else if page.info.None? then Err(NoInfoRegion)
    else if page.info.value.img.None? then Err(NoCoverImage)
    else if page.details.None? then Err(NoDetailsRegion)
    else DetailsRecord(path, HeadRecord(path, page.heading.value, page.info.value), page.details.value)
  }

  /** The keys `get_book_data` sets before the details region: the
      stripped heading as title, the cover as the only image, and the
      description. */
  function HeadRecord(path: string, heading: string, info: Info): Record
    requires info.img.Some?
  {
    map[
      Title := JStr(Strip(heading)),
      Images := JArr([CoverImage(path, info.img.value.src)]),
      Description := JStr(DescriptionText(info.text))]
  }

  /** The head of the record: the stripped heading as title, the cover as
      the only image and the description, and no metadata key yet. */
  lemma HeadRecordFields(path: string, heading: string, info: Info)
    requires info.img.Some?
    ensures var head := HeadRecord(path, heading, info);
      && head.Keys == {Title, Images, Description}
      && head[Title] == JStr(Strip(heading))
      && head[Images] == JArr([CoverImage(path, info.img.value.src)])
      && head[Description] == JStr(DescriptionText(info.text))
      && forall k :: MetadataField(k).Some? ==> k !in head
  {
  }

  /** Storing the extracted metadata into a record that has none of its
      keys yet: each metadata key then holds its extracted value, if any,
      and every other key keeps its value. */
  lemma {:induction false} MetadataStored(data: Record, fields: map<FieldClass, seq<string>>)
    requires forall k :: MetadataField(k).Some? ==> Get(data, k) == None
    ensures forall k :: Get(AddPresent(data, MetadataValues(fields)), k) ==
                        if MetadataField(k).Some? then Present(ElementInfoValues(fields, MetadataField(k).value))
                        else Get(data, k)
  {
    forall k ensures Get(AddPresent(data, MetadataValues(fields)), k) ==
      if MetadataField(k).Some? then Present(ElementInfoValues(fields, MetadataField(k).value)) else Get(data, k)
    {
      MetadataLastPresent(fields, k);
    }
  }

  /** Each key of a successful details stage, stated against the keys set
      before it (which include no metadata key): the description with its
      rights clause, the subject with the area merged in, the other
      metadata fields, the links when there are any; the other keys set
      before keep their values, unless the last stage sets them. */
  lemma {:induction false} DetailsRecordKey(path: string, head: Record, d: Details, k: Key)
    requires DetailsRecord(path, head, d).Ok?
    requires forall k :: MetadataField(k).Some? ==> k !in head
    ensures d.area.Some?
    ensures AppendRights(CurrentDescription(head), ElementInfoValues(d.fields, Derechos)).Ok?
    ensures Get(DetailsRecord(path, head, d).value, Language) == Some(JStr("es"))
    ensures !SetByCompletion(k) ==>
      Get(DetailsRecord(path, head, d).value, k) ==
      if k == Description then
        if Truthy(ElementInfoValues(d.fields, Derechos)) then
          Some(JStr(AppendRights(CurrentDescription(head), ElementInfoValues(d.fields, Derechos)).value))
        else Get(head, Description)
      else if k == Subject then MergeArea(Present(ElementInfoValues(d.fields, Materia)), d.area.value)
      else if MetadataField(k).Some? then Present(ElementInfoValues(d.fields, MetadataField(k).value))
      else if k == Links && DownloadLinks(path, d.downloads) != [] then Some(JArr(DownloadLinks(path, d.downloads)))
      else Get(head, k)
  {
    var links := DownloadLinks(path, d.downloads);
    var data := AddPresent(WithLinks(head, links), MetadataValues(d.fields));
    DetailsAnnotated(path, head, d);
    var r := AnnotatedRecord(data, d).value;
    AnnotatedRecordKey(data, d, k);
    if SetByCompletion(k) || k == Description {
    } else if k == Subject {
      HeadField(head, links, d.fields, Subject);
      assert Get(r, k) == MergeArea(Get(data, Subject), d.area.value);
    } else {
      HeadField(head, links, d.fields, k);
      assert Get(r, k) == Get(data, k);
    }
  }

  /** The details stage is the rights and area stage applied to the record
      with links and metadata added, which keeps the description set before. */
  lemma DetailsAnnotated(path: string, head: Record, d: Details)
    requires forall k :: MetadataField(k).Some? ==> k !in head
    ensures var data := AddPresent(WithLinks(head, DownloadLinks(path, d.downloads)), MetadataValues(d.fields));
      && DetailsRecord(path, head, d) == AnnotatedRecord(data, d)
      && Get(data, Description) == Get(head, Description)
      && CurrentDescription(data) == CurrentDescription(head)
  {
    HeadField(head, DownloadLinks(path, d.downloads), d.fields, Description);
  }

  /** Each key of a successful rights and area stage followed by the last
      stage, against the record before them: the description gains its
      rights clause, the area is merged into the subject, the language is
      set, and the keys neither stage sets keep their values. */
  lemma {:induction false} AnnotatedRecordKey(data: Record, d: Details, k: Key)
    requires AnnotatedRecord(data, d).Ok?
    ensures d.area.Some?
    ensures AppendRights(CurrentDescription(data), ElementInfoValues(d.fields, Derechos)).Ok?
    ensures Get(AnnotatedRecord(data, d).value, Language) == Some(JStr("es"))
    ensures !SetByCompletion(k) ==>
      Get(AnnotatedRecord(data, d).value, k) ==
      if k == Description then
        if Truthy(ElementInfoValues(d.fields, Derechos)) then
          Some(JStr(AppendRights(CurrentDescription(data), ElementInfoValues(d.fields, Derechos)).value))
        else Get(data, Description)
      else if k == Subject then MergeArea(Get(data, Subject), d.area.value)
      else Get(data, k)
  {
    AnnotatedStages(data, d);
    var rights := AppendRights(CurrentDescription(data), ElementInfoValues(d.fields, Derechos));
    var describe := Truthy(ElementInfoValues(d.fields, Derechos));
    var described := if describe then data[Description := JStr(rights.value)] else data;
    var merged := Put(described, Subject, MergeArea(Get(described, Subject), d.area.value));
    AnnotationKeys(data, describe, rights.value, d.area.value);
    CompleteRecordFields(merged, d.fields);
  }

  /** The record once links and metadata are in, from a start without
      metadata keys: the keys set before keep their values, the links are
      stored when there are any, and each metadata field holds its
      extracted value. */
  lemma HeadField(head: Record, links: seq<Json>, fields: map<FieldClass, seq<string>>, k: Key)
    requires forall k :: MetadataField(k).Some? ==> k !in head
    ensures Get(AddPresent(WithLinks(head, links), MetadataValues(fields)), k) ==
      if MetadataField(k).Some? then Present(ElementInfoValues(fields, MetadataField(k).value))
      else if k == Links && links != [] then Some(JArr(links))
      else Get(head, k)
  {
    MetadataLastPresent(fields, k);
  }

  /** The rights and area stage, once its two checks have passed. */
  lemma AnnotatedStages(data: Record, d: Details)
    requires AnnotatedRecord(data, d).Ok?
    ensures AppendRights(CurrentDescription(data), ElementInfoValues(d.fields, Derechos)).Ok?
    ensures d.area.Some?
    ensures var rights := ElementInfoValues(d.fields, Derechos);
      var described := if Truthy(rights) then data[Description := JStr(AppendRights(CurrentDescription(data), rights).value)] else data;
      AnnotatedRecord(data, d) ==
        CompleteRecord(Put(described, Subject, MergeArea(Get(described, Subject), d.area.value)), d.fields)
  {
  }

  /** The rights and area stage's writes, whatever the values written. */
  lemma AnnotationKeys(data: Record, describe: bool, description: string, area: string)
    ensures var described := if describe then data[Description := JStr(description)] else data;
      var r := Put(described, Subject, MergeArea(Get(described, Subject), area));
      && Get(r, Description) == (if describe then Some(JStr(description)) else Get(data, Description))
      && Get(r, Subject) == MergeArea(Get(data, Subject), area)
      && (forall k :: k != Description && k != Subject ==> Get(r, k) == Get(data, k))
  {
  }

  /** One more anchor adds its PDF or EPUB link, or nothing. */
  lemma DownloadLinksStep(path: string, hrefs: seq<string>, i: nat)
    requires i < |hrefs|
    ensures DownloadLinks(path, hrefs[..i + 1]) ==
      DownloadLinks(path, hrefs[..i]) +
      if EndsWith(hrefs[i], ".pdf") then [AcquisitionLink(path, hrefs[i], PdfType)]
      else if EndsWith(hrefs[i], ".epub") then [AcquisitionLink(path, hrefs[i], EpubType)]
      else []
  {
    assert hrefs[..i + 1][..i] == hrefs[..i];
    assert hrefs[..i + 1][i] == hrefs[i];
  }

  /** The loop of `get_book_data` over the download anchors: a PDF or EPUB
      acquisition link for each `href` with that extension, in order. */
  method CollectDownloadLinks(path: string, hrefs: seq<string>) returns (links: seq<Json>)
    ensures links == DownloadLinks(path, hrefs)
  {
    links := [];
    var i := 0;
    while i < |hrefs|
      invariant i <= |hrefs|
      invariant links == DownloadLinks(path, hrefs[..i])
    {
      var href := hrefs[i];
      DownloadLinksStep(path, hrefs, i);
      if EndsWith(href, ".pdf") {
        links := links + [AcquisitionLink(path, href, PdfType)];
      } else if EndsWith(href, ".epub") {
        links := links + [AcquisitionLink(path, href, EpubType)];
      }
      i := i + 1;
    }
    assert hrefs[..i] == hrefs;
  }

  /** The loop of `get_book_data` over the extracted metadata: each value
      that is not `None` is stored under its key. */
  method AddFields(data: Record, kvs: seq<(Key, FieldValue)>) returns (r: Record)
    ensures r == AddPresent(data, kvs)
  {
    r := data;
    var j := 0;
    while j < |kvs|
      invariant j <= |kvs|
      invariant r == AddPresent(data, kvs[..j])
    {
      var (k, v) := kvs[j];
      AddPresentStep(data, kvs, j);
      if v != Absent {
        r := r[k := FieldJson(v)];
      }
      j := j + 1;
    }
    assert kvs[..j] == kvs;
  }

  /** `get_book_data`, step by step as the source builds its dictionary. */
  method GetBookData(path: string, page: Page) returns (r: Result<Record, ScrapeError>)
    ensures r == BookRecord(path, page)
  {
    if page.heading.None? {
      return Err(NoHeading);
    }
    var data: Record := map[Title := JStr(Strip(page.heading.value))];

    if page.info.None? {
      return Err(NoInfoRegion);
    }
    var info := page.info.value;
    if info.img.None? {
      return Err(NoCoverImage);
    }
    data := data[Images := JArr([CoverImage(path, info.img.value.src)])];
    data := data[Description := JStr(DescriptionText(info.text))];

    if page.details.None? {
      return Err(NoDetailsRegion);
    }
    r := AddDetails(path, data, page.details.value);
  }

  /** `get_book_data` from the download anchors on: links, then the
      metadata fields. */
  method AddDetails(path: string, head: Record, details: Details) returns (r: Result<Record, ScrapeError>)
    ensures r == DetailsRecord(path, head, details)
  {
    var data := head;
    var links := CollectDownloadLinks(path, details.downloads);
    if links != [] {
      data := data[Links := JArr(links)];
    }
    assert data == WithLinks(head, links);
    data := AddFields(data, MetadataValues(details.fields));
    r := AddRightsAndArea(data, details);
  }

  /** `get_book_data` from the rights clause to the area, statement by
      statement. What this stage promises is stated about `AnnotatedRecord`
      by `AnnotationKeys`, `AnnotatedStages` and `AnnotatedRecordKey`. */
  method AddRightsAndArea(data: Record, details: Details) returns (r: Result<Record, ScrapeError>)
    ensures r == AnnotatedRecord(data, details)
  {
    var record := data;
    var rights := ElementInfoValues(details.fields, Derechos);
    if Truthy(rights) {
      var description := AppendRights(CurrentDescription(record), rights);
      if description.Err? {
        return Err(description.error);
      }
      record := record[Description := JStr(description.value)];
    }

    if details.area.None? {
      return Err(NoAreaField);
    }
    record := Put(record, Subject, MergeArea(Get(record, Subject), details.area.value));
    r := CompleteBookData(record, details.fields);
  }

  /** `get_book_data` from the identifier to the language, statement by
      statement. What this stage promises is stated about `CompleteRecord`
      by `CompletionKeys` and `CompleteRecordFields`. */
  method CompleteBookData(data: Record, fields: map<FieldClass, seq<string>>) returns (r: Result<Record, ScrapeError>)
    ensures r == CompleteRecord(data, fields)
  {
    var record := data;
    var id := IdentifierUrn(ElementInfoValues(fields, Isbn), ElementInfoValues(fields, Issn));
    if id.Some? {
      record := record[Identifier := JStr(id.value)];
    }

    var pages := PageCount(ElementInfoValues(fields, Pages));
    if pages.Err? {
      return Err(pages.error);
    }
    if pages.value.Some? {
      record := record[NumberOfPages := JInt(pages.value.value)];
    }

    var names := Illustrators(ElementInfoValues(fields, Diseno));
    if names.Err? {
      return Err(names.error);
    }
    if names.value.Some? {
      record := record[Illustrator := JArr(Strs(names.value.value))];
    }

    var collection := Collection(ElementInfoValues(fields, Coleccion));
    if collection.Some? {
      record := record[BelongsTo := collection.value];
    }

    r := Ok(record[Language := JStr("es")]);
  }
}
