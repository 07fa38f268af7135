# idartes-opds scraper, modelled in Dafny

`scraping.py` crawls the Idartes online bookshop ("idartesencasa"). It reads
the catalogue's list page and each book page, turns every book page into a
publication record, and wraps the records into an OPDS 2.0 (JSON) feed. This
project models the part of that program that decides what goes into the
records and the feed:

- `get_books_url`: the link of each catalogue entry.
- `get_element_info_values`: reads one metadata field of a book page. It
  gives `None`, one string or a list of strings, depending on how many items
  the field has.
- `get_book_data`: builds a book's record one key at a time. It sets the
  title, the cover, the description, the download links, the metadata fields,
  the rights clause, the area merged into the subject, the identifier, the
  page count, the illustrators, the collection and the language.
- `transform_to_opds`: one publication per record, then the feed around them.

The HTML library is not modelled. A page is given as the values its queries
return:
- the `h1` text;
- the info region's text and its `img`;
- the details region's download `href`s, the item texts of each field class,
  and the area text.

Each exception `get_book_data` can raise is an `Err` value of a `Result`,
raised at the same point as in the source, except the one for a download
anchor without `href` (see "Left out"):
- a missing `h1`, info region, `img`, details region or area `div`;
- several rights, page-count or illustrator items;
- a page count that `int` refuses.

The Python `str` operations the scraper relies on are modelled with
CPython's meaning in module `PyStr`:
- `strip`, `lstrip` and `strip(" ")`;
- `split`, `join` and `endswith`;
- `replace(pat, "")`;
- `int(...)`;
- the `repr` that an f-string applies to a list.

Files:
- `wrappers.dfy`: `Option` and `Result`.
- `json.dfy`: the JSON-shaped values.
- `pystr.dfy`: the string operations.
- `scraping.dfy`: the page, the extractor, the record and `get_book_data`.
- `opds.dfy`: `transform_to_opds`.

Each core operation appears twice:
- a specification function (`BookRecord`, `DetailsRecord`, `DownloadLinks`,
  `AddPresent`, `OpdsFeed`);
- a method that builds the value step by step, as the source does, and is
  proved equal to that function (`GetBookData`, `CollectDownloadLinks`,
  `AddFields`, `TransformToOpds`).

The lemmas state what the specification functions promise.

## Model

| member | source | states |
|---|---|---|
| Scraping.ClassName | scraping.py:69-124 | Every queried class is a `field--name-field-` class. |
| Scraping.ClassNameInjective | scraping.py:69-124 | The twelve queried classes are distinct, so each field of the details region is read from its own `div`. |
| Scraping.KeyNameInjective | scraping.py:30-129 | The fifteen key strings the record is built with are distinct, so a map keyed by `Key` stands for the dictionary. |
| Scraping.BooksUrl | scraping.py:12-13 | The result is the `href` of every entry's first link, one per entry and in order. It fails exactly when some entry has no link. |
| Scraping.ElementInfoValues | scraping.py:16-26 | The result is `None` exactly when the field has no items (including a missing field `div`). It is a single string exactly when there is one item, and otherwise a list of two or more. |
| Scraping.StripAll | scraping.py:23 | Each item's text is stripped, one result per item, in order. |
| Scraping.ElementInfoValuesTexts | scraping.py:16-26 | Whatever its shape, the returned value holds the stripped text of every item, one per item, in document order. |
| Scraping.Truthy | scraping.py:86-125 | The `if value:` tests. It has no contract of its own; TruthyExtracted states its meaning. |
| Scraping.TruthyExtracted | scraping.py:86-125 | On every value the extractor returns, `Truthy` holds exactly for a non-empty string or a non-empty list, as Python's truth test does. |
| Scraping.BookRecord | scraping.py:29-131 | A missing heading, info region, cover `img` or details region raises, checked in that order. On a page that has all four, a record is built exactly when the details region passes every later check. Otherwise the first failing check in source order raises, as DetailsError names it. |
| Scraping.DetailsRecord | scraping.py:44-131 | From the details region on, a record is built exactly when DetailsError finds no failing check. Otherwise the error DetailsError names is raised: several rights items, then a missing area `div`, then several page-count items, then a page count `int()` refuses, then several illustrator items. |
| Scraping.AnnotatedRecord | scraping.py:84-131 | From the rights clause on, the same outcome: a record exactly when no check fails, otherwise the first failing check's error. |
| Scraping.CompleteRecord | scraping.py:106-131 | From the identifier on, a record exactly when CompletionError finds no failing page-count or illustrator check, otherwise the first one's error. |
| Scraping.DetailsError | scraping.py:85-121 | Which exception the details region makes `get_book_data` raise, in the source's order: several rights items, then a missing area `div`, then the checks of CompletionError. `None` when every check passes. |
| Scraping.CompletionError | scraping.py:114-121 | Which exception the last stage raises, in the source's order: several page-count items, then page-count text `int()` refuses, then several illustrator items. `None` when every check passes. |
| Scraping.PlainDetailsBuilt | scraping.py:84-131 | A details region with the area `div` and no rights, page-count or illustrator field passes every check, whatever its other fields, so a record is built. |
| Scraping.HeadRecordFields | scraping.py:33-42 | Before the details region, the record holds exactly the stripped heading as `title`, the cover as the only image, and the description. It holds no metadata key yet. |
| Scraping.CoverImage | scraping.py:38-41 | The cover is a JPEG entry whose `href` is `path` followed by the `src`, or by the text `None` when the `img` has no `src`. |
| Scraping.DescriptionText | scraping.py:42 | The description is a prefix of the left-stripped info text and contains no newline. It stops only at a newline. |
| Scraping.ExtensionsExclusive | scraping.py:51-57 | No `href` ends with both `.pdf` and `.epub`. |
| Scraping.DownloadType | scraping.py:51-62 | A `.pdf` href gets the PDF type and a `.epub` href the EPUB type, both ways round. Any other href gets no type. |
| PyStr.EndsWith | scraping.py:51-57 | `str.endswith`. It has no contract of its own; EndsWithConcat and EndsWithSplit state its meaning. |
| PyStr.EndsWithConcat | scraping.py:51-57 | Text followed by the suffix ends with it. |
| PyStr.EndsWithSplit | scraping.py:51-57 | Text that ends with the suffix is some text followed by it. |
| Scraping.LinkFor | scraping.py:50-62 | One anchor contributes at most one link: the acquisition link of its type, and none exactly when it has no type. |
| Scraping.DownloadLinks | scraping.py:47-62 | There are never more links than download anchors. |
| Scraping.DownloadLinksEmpty | scraping.py:47-65 | There are no links exactly when no href ends with `.pdf` or `.epub`. |
| Scraping.DownloadLinksConcat | scraping.py:49-62 | Links keep document order: the links of two runs of anchors are the first run's links followed by the second's. |
| Scraping.DownloadLinksSingle | scraping.py:50-62 | One anchor gives one open-access acquisition link with href `path + url` and its extension's type, or no link. |
| Scraping.DownloadLinksStep | scraping.py:49-62 | One more anchor appends its PDF link, its EPUB link, or nothing, following the `if`/`elif` on the extension. |
| Scraping.CollectDownloadLinks | scraping.py:47-62 | The loop over the anchors produces exactly `DownloadLinks`. |
| Scraping.WithLinks | scraping.py:64-65 | `links` is stored only when there are links. Every other key keeps its value. |
| Scraping.Entries | scraping.py:68-75 | The metadata table pairs each key, in order, with its field's extracted value. |
| Scraping.MetadataKeysListed | scraping.py:68-75 | The table lists exactly the six keys that are copied from a field. |
| Scraping.LastPresent | scraping.py:78-80 | A value found for a key is never `None`. |
| Scraping.EntriesLastPresent | scraping.py:68-80 | A listed key's last value that is not `None` is its field's extracted value. An unlisted key has none. |
| Scraping.MetadataLastPresent | scraping.py:68-80 | A metadata key takes its field's value when that value is not `None`. No other key takes anything. |
| Scraping.AddPresent | scraping.py:78-80 | After `data[k] = v` for each entry that is not `None`, each key holds its last such value. A key with no such entry keeps its old value. |
| Scraping.AddPresentStep | scraping.py:78-80 | One more loop iteration either stores the entry or skips it, when its value is `None`. |
| Scraping.AddFields | scraping.py:78-80 | The loop over the metadata table produces exactly `AddPresent`. |
| Scraping.MetadataStored | scraping.py:68-80 | Starting from a record with no metadata key, each metadata key ends up holding its extracted value when there is one. Every other key keeps its value. |
| Scraping.HeadField | scraping.py:47-80 | After links and metadata are added: a metadata key holds its extracted value, `links` holds the links when there are any, and every other key keeps its earlier value. |
| Scraping.CurrentDescription | scraping.py:89 | `data.get("description", "")`: the stored description, or `""` when there is none. |
| Scraping.AppendRights | scraping.py:85-92 | A truthy single rights value appends `"\n\nDerechos: " + rights` to the description. A falsy value leaves the description unchanged. A list raises. |
| Scraping.MergeArea | scraping.py:95-104 | An empty area leaves the subject unchanged. Otherwise the area comes first, followed by the earlier subject values in order. The result is a list exactly when there was a subject. |
| Scraping.AnnotationKeys | scraping.py:86-104 | The rights and area stage writes only `description`, and only when it writes the rights clause, and `subject`, with the values above. |
| Scraping.AnnotatedStages | scraping.py:84-104 | A successful rights and area stage had a single (or falsy) rights value and an area `div`. Only a truthy rights value rewrites the description. |
| Scraping.IdentifierUrn | scraping.py:106-112 | A truthy ISBN gives `urn:ISBN:` plus the ISBN, whatever the ISSN. Otherwise a truthy ISSN gives `urn:ISSN:` plus the ISSN. Otherwise there is no identifier. |
| Scraping.Formatted | scraping.py:110-112 | `f"{v}"`: a single value is written as it is, and a list is written so that `ast.literal_eval` reads back exactly its items. |
| Scraping.PageCount | scraping.py:114-116 | A falsy value gives no page count. A list raises. Otherwise the count is `int()` of the text with every `"páginas"` removed, and a text `int()` refuses raises. |
| Scraping.PageCountOfCount | scraping.py:114-116 | `"<n> páginas"` reads as the page count `n` when `n` has at most 4300 digits. |
| Scraping.PageCountTooLong | scraping.py:114-116 | `"<n> páginas"` raises `ValueError` when `n` has more than 4300 digits. |
| Scraping.PageCountUnitSeparator | scraping.py:114-116 | `"<n>\x1fpáginas"` raises `ValueError`: the unit separator is left after the unit is removed, and `int()` does not skip it. |
| Scraping.PagesTextReduced | scraping.py:116 | Removing the unit from `"<n> páginas"` leaves the digits and a space, which `int()` reads as the digits alone. |
| Scraping.UnitRemoved | scraping.py:116 | Removing the unit from digits, one separator character and the unit leaves the digits and the separator. |
| Scraping.Illustrators | scraping.py:118-121 | A falsy value gives no illustrators. A list raises. Otherwise the result is a non-empty list of names without `/`, which joined with `/` give back the space-stripped text. |
| Scraping.Collection | scraping.py:123-126 | `belongsTo` is `{"collection": value}` exactly when the value is truthy. |
| Scraping.CompletionKeys | scraping.py:106-129 | The last stage writes only `identifier`, `numberOfPages`, `illustrator`, `belongsTo` and `language`. |
| Scraping.CompleteRecordFields | scraping.py:106-129 | A successful last stage sets each of those keys to its value when there is one, and `language` to `"es"`. Every other key keeps its value. |
| Scraping.AnnotatedRecordKey | scraping.py:84-131 | From the rights clause on: the description gains the rights clause when the rights value is truthy and is otherwise left as it was. The area is merged into the subject, and `language` is `"es"`. Keys that no later stage sets keep their values. |
| Scraping.DetailsAnnotated | scraping.py:44-92 | Adding the links and the metadata fields leaves the description set from the info region as it was, and the rights clause is appended to that description. |
| Scraping.DetailsRecordKey | scraping.py:44-131 | Each key of a record built from a details region, against the keys set before it: the description with the rights clause when the rights value is truthy, the subject with the area merged in, each other metadata field's value, `links` when there are links, and `language` `"es"`. |
| Scraping.GetBookData | scraping.py:29-131 | Building the dictionary key by key gives `BookRecord`. The errors are raised in the source's order. |
| Scraping.AddDetails | scraping.py:44-131 | From the download anchors to the end, the steps give `DetailsRecord`. |
| Scraping.AddRightsAndArea | scraping.py:84-131 | From the rights clause to the end, the steps give `AnnotatedRecord`. |
| Scraping.CompleteBookData | scraping.py:106-131 | From the identifier to the end, the steps give `CompleteRecord`. |
| Json.Strs | scraping.py:121 | A list of strings becomes a JSON list of the same strings, in order. |
| PyStr.LStripBy | scraping.py:42 | `lstrip` drops exactly the longest prefix of dropped characters. |
| PyStr.RStripBy | scraping.py:23 | `rstrip` drops exactly the longest suffix of dropped characters. |
| PyStr.StripBy | scraping.py:121 | `strip` gives the slice of the text that starts where `lstrip` starts. Only dropped characters lie before and after it, and neither of its ends is a dropped character. |
| PyStr.StripKeeps | scraping.py:116 | Text that starts and ends with a kept character is unchanged by `strip`. |
| PyStr.StripTrailing | scraping.py:116 | `strip` removes a trailing dropped character from text whose ends are kept characters. |
| PyStr.FirstLine | scraping.py:42 | `split("\n")[0]` is the prefix before the first newline and contains none. |
| PyStr.Split | scraping.py:121 | `split` gives at least one piece, and no piece contains the separator. |
| PyStr.JoinSplit | scraping.py:121 | Joining the pieces of `split` gives back the text. |
| PyStr.SplitAfterPiece | scraping.py:121 | Splitting `a + sep + b`, where `a` has no separator, gives `a` and then the pieces of `b`. |
| PyStr.SplitWhole | scraping.py:121 | Text without the separator splits into itself. |
| PyStr.SplitJoin | scraping.py:121 | Splitting the join of pieces without separators gives back the pieces. |
| PyStr.RemoveAll | scraping.py:116 | `replace(pat, "")` never lengthens the text. |
| PyStr.RemoveAllAbsent | scraping.py:116 | Text with no occurrence of the pattern passes through `replace` unchanged. |
| PyStr.RemoveAllSkips | scraping.py:116 | A prefix holding no first character of the pattern is kept as it is, and `replace` goes on with the rest of the text. |
| PyStr.RemoveAllFront | scraping.py:116 | An occurrence at the front is removed in full. |
| PyStr.ParseLiteral | scraping.py:116 | A value exists exactly for an optionally signed run of 1 to 4300 ASCII digits. |
| PyStr.ParseInt | scraping.py:116 | `int(s)` succeeds exactly when the text, stripped of the whitespace `int()` skips (which leaves out U+001C to U+001F), is such a literal. |
| PyStr.ShowNatValue | scraping.py:116 | The decimal digits of `n` denote `n`. |
| PyStr.DigitNotSpace | scraping.py:116 | A digit is not whitespace, for `strip` or for `int()`. |
| PyStr.ParseShowNat | scraping.py:116 | `int(str(n)) == n` for every natural `n` of at most 4300 digits. |
| PyStr.ParseShowNatTooLong | scraping.py:116 | `int(str(n))` raises `ValueError` when `n` has more than 4300 digits. |
| PyStr.ParseIntKeepsUnitSeparator | scraping.py:116 | `int()` rejects digits followed by U+001F, which `strip` would remove. |
| PyStr.ParseLiteralNeg | scraping.py:116 | A minus sign before digits negates their value. |
| PyStr.ParseShowNeg | scraping.py:116 | `int("-" + str(m)) == -m` when `m` has at most 4300 digits. |
| PyStr.ParseShow | scraping.py:116 | `int(str(n)) == n` for every integer `n` of at most 4300 digits. |
| PyStr.EscapeChar | scraping.py:110-112 | `repr` writes a character as itself or as a backslash escape. |
| PyStr.Escape | scraping.py:110-112 | Escaping never shortens the text. |
| PyStr.StrRepr | scraping.py:110-112 | `repr(s)` is enclosed in one kind of quote. The quotes are double exactly when `s` holds a single quote and no double quote. |
| PyStr.ListRepr | scraping.py:110-112 | `repr` of a list is enclosed in brackets, and is `[]` exactly for the empty list. |
| PyStr.EscapePlain | scraping.py:110-112 | `repr` writes plain characters as they are. |
| PyStr.StrReprPlain | scraping.py:110-112 | `repr` of plain text is the text between single quotes. |
| PyStr.ListReprSingle | scraping.py:110-112 | A list of one plain string is written `['text']`. |
| PyStr.ReprItemsPlain | scraping.py:110-112 | A plain string at the front of a list is written in single quotes, followed by `, ` and the rest of the items. |
| PyStr.ReprItems | scraping.py:110-112 | The items of a list's repr. It has no contract of its own; ReprItemsRead and ReprItemsPlain state its meaning. |
| PyStr.HexDigit | scraping.py:110-112 | The digit `repr` writes in a `\xhh` escape is read back as its value. |
| PyStr.EscapeCharRead | scraping.py:110-112 | The escape `repr` writes for a character, within either kind of quote, reads back as that character. |
| PyStr.EscapeRead | scraping.py:110-112 | The escaped text of `s` followed by the closing quote reads back as `s`, and reading stops at that quote. |
| PyStr.StrReprRead | scraping.py:110-112 | `repr(s)` reads back as `s`, which is `eval(repr(s)) == s`. |
| PyStr.StrReprFront | scraping.py:110-112 | A `repr(s)` at the front of a list's items reads back as `s`, followed by the items after `, `. |
| PyStr.ReprItemsRead | scraping.py:110-112 | The items of `repr(ss)` read back as `ss`. |
| PyStr.ListReprRead | scraping.py:110-112 | `ast.literal_eval(repr(ss)) == ss` for every list of strings, so the list written into an identifier keeps its items. |
| Opds.PublicationMetadata | scraping.py:140-146 | The metadata has `@type` `http://schema.org/Book` and the given `modified`. It holds every book key except `links` and `images`, each with the book's value. |
| Opds.PublicationOf | scraping.py:140-152 | A publication's `links` and `images` are the book's, or `[]` when the book has none. Its metadata is the one above. |
| Opds.BookOfPublication | scraping.py:138-152 | A publication loses nothing: the book can be read back from it when the book's `links` and `images` are not empty lists. |
| Opds.PublicationsConcat | scraping.py:136-154 | The publications of `a + b` are those of `a` followed by those of `b`. |
| Opds.OpdsFeed | scraping.py:134-172 | The feed has title "Catálogo idartes" and `numberOfItems == len(books)`. It has one publication per book, in order, and a single self link `base_url + "/libros_idartes.json"` of type `application/opds+json`. |
| Opds.DefaultOpdsFeed | scraping.py:134 | Without a `base_url`, the self link is `https://idartesencasa.gov.co/libros_idartes.json`, and the publications are the same. |
| Opds.TransformToOpds | scraping.py:134-172 | The loop that appends one publication per book produces exactly `OpdsFeed`. |

## Left out

- `get_soup`, HTTP and HTML parsing: a page is given as the values the
  parser's `find`, `find_all`, `.text` and `.get` return on it.
- `save_opds_feed`, the crawl loop under `__main__`, and every `print`,
  including the one after the subject insert: these are I/O.
- `datetime.now()`: the `modified` stamp of each publication is a parameter,
  one reading per book, and its `%Y-%m-%dT%H:%M:%SZ` formatting is not
  modelled.
- Dictionary key order: records and metadata are maps, so the order of keys
  in the written JSON is not captured.
- Scraping.MergeArea: builds a new list for the subject instead of
  inserting into the existing list in place. The list is shared only with
  the local `fields` dictionary, which is not read after the loop that
  copies it into the record, so nothing observes the difference.
- Scraping.CurrentDescription: reads a non-string `description` as `""`. The
  description is always a string by then, so that case never arises.
- Scraping.HeadRecord: has no contract of its own. What it holds is stated
  by HeadRecordFields.
- Opds.BookOfPublication: needs `links` and `images` that are not empty
  lists. Every record `get_book_data` builds has that property, but it is not
  proved about `BookRecord`.
- PyStr.ParseInt: does not accept `_` digit separators or non-ASCII decimal
  digits, both of which `int()` accepts.
- PyStr.ParseInt: uses the default limit of 4300 digits, which every
  CPython release since 3.11 applies. A limit changed with
  `sys.set_int_max_str_digits`, or an older interpreter without any limit,
  is not modelled.
- PyStr.StrRepr: escapes only the characters CPython writes as `\\`,
  `\t`, `\n`, `\r` or `\xhh`. The other non-printable characters are kept
  as they are, where `repr` writes them as `\uXXXX`, or as `\UXXXXXXXX`
  above U+FFFF.
- PyStr.RemoveAll: its own contract gives only the length bound. The
  left-to-right removal is stated by RemoveAllAbsent, RemoveAllSkips and
  RemoveAllFront, not in general.
- PyStr.IsSpace: covers the whitespace of `str.isspace` up to U+3000, which
  is every such code point.
- An anchor without `href`: the link loop would raise on `None.endswith`,
  but the model gives every download anchor an `href`.
- Scraping.DownloadLinks: its own contract gives only the length bound. The
  type, href and order of each link are stated by DownloadLinksSingle,
  DownloadLinksStep and DownloadLinksConcat.
