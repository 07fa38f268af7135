/** The OPDS 2.0 (JSON) feed `transform_to_opds` wraps the book records into. */
module Opds {
  import opened Json
  import opened Scraping

  const BookType := "http://schema.org/Book"
  const FeedTitle := "Catálogo idartes"
  const FeedFile := "/libros_idartes.json"
  const FeedType := "application/opds+json"

  /** The `base_url` the feed is written for when the caller gives none. */
  const DefaultBaseUrl := "https://idartesencasa.gov.co"

  /** A publication's `metadata` dict: its `@type` and `modified` entries
      and the entries copied from the book record (whose key names are
      never `@type` or `modified`). */
  datatype Metadata = Metadata(typeTag: string, modified: string, fields: Record)

  datatype Link = Link(rel: string, href: string, mediaType: string)

  /** One entry of `publications`. */
  datatype Publication = Publication(metadata: Metadata, links: Json, images: Json)

  /** The whole feed: its `metadata` (title and item count), its `links`
      and its `publications`. */
  datatype Feed = Feed(title: string, numberOfItems: int, links: seq<Link>, publications: seq<Publication>)

  /** `book.get(key, [])` */
  function GetOrEmpty(book: Record, key: Key): Json
  {
    if key in book then book[key] else JArr([])
  }

  /** The metadata of a publication: `@type` and `modified`, updated with
      every entry of the book but `links` and `images`. */
  function PublicationMetadata(book: Record, modified: string): (md: Metadata)
    ensures md.typeTag == "http://schema.org/Book"
    ensures md.modified == modified
    ensures forall k :: k in md.fields <==> k in book && k != Links && k != Images
    ensures forall k :: k in md.fields ==> md.fields[k] == book[k]
  {
    Metadata(BookType, modified, book - {Links, Images})
  }

  /** The publication the loop body builds for one book, `modified` being
      the clock reading taken for it. */
  function PublicationOf(book: Record, modified: string): (p: Publication)
    ensures p.metadata == PublicationMetadata(book, modified)
    ensures p.links == if Links in book then book[Links] else JArr([])
    ensures p.images == if Images in book then book[Images] else JArr([])
  {
    Publication(PublicationMetadata(book, modified), GetOrEmpty(book, Links), GetOrEmpty(book, Images))
  }

  /** One publication per book, in order, each with its own clock reading. */
  function Publications(books: seq<Record>, stamps: seq<string>): seq<Publication>
    requires |stamps| == |books|
  {
    seq(|books|, i requires 0 <= i < |books| => PublicationOf(books[i], stamps[i]))
  }

  /** The feed's self link. */
  function SelfLink(baseUrl: string): Link
  {
    Link("self", baseUrl + FeedFile, FeedType)
  }

  /** `transform_to_opds(books, base_url)`, `stamps[i]` being the formatted
      time read while building the `i`th publication. */
  function OpdsFeed(books: seq<Record>, baseUrl: string, stamps: seq<string>): (feed: Feed)
    requires |stamps| == |books|
    ensures feed.title == "Catálogo idartes"
    ensures feed.numberOfItems == |books| == |feed.publications|
    ensures forall i :: 0 <= i < |books| ==> feed.publications[i] == PublicationOf(books[i], stamps[i])
    ensures feed.links == [Link("self", baseUrl + "/libros_idartes.json", "application/opds+json")]
  {
    var pubs := Publications(books, stamps);
    Feed(FeedTitle, |pubs|, [SelfLink(baseUrl)], pubs)
  }

  /** `transform_to_opds(books)`: the feed for the default base URL. */
  function DefaultOpdsFeed(books: seq<Record>, stamps: seq<string>): (feed: Feed)
    requires |stamps| == |books|
    ensures feed.links == [Link("self", "https://idartesencasa.gov.co/libros_idartes.json", "application/opds+json")]
    ensures feed.publications == OpdsFeed(books, DefaultBaseUrl, stamps).publications
  {
    assert DefaultBaseUrl + FeedFile == "https://idartesencasa.gov.co/libros_idartes.json";
    OpdsFeed(books, DefaultBaseUrl, stamps)
  }

  // ---------------------------------------------------------------------
  // Going back from a publication to its book
  // ---------------------------------------------------------------------

  /** The book a publication was built from, read back: its copied fields,
      plus `links` and `images` when they are not the empty default. */
  function BookOf(p: Publication): Record
  {
    var withLinks := if IsEmptyList(p.links) then p.metadata.fields else p.metadata.fields[Links := p.links];
    if IsEmptyList(p.images) then withLinks else withLinks[Images := p.images]
  }

  /** A record whose `links` and `images`, when present, are not empty
      lists (as every `get_book_data` record: links are only stored when
      there are some, and the cover is always there). */
  predicate NoEmptyLists(book: Record)
  {
    (Links in book ==> !IsEmptyList(book[Links])) && (Images in book ==> !IsEmptyList(book[Images]))
  }

  /** The JSON value `[]`. */
  predicate IsEmptyList(j: Json)
  {
    j.JArr? && j.items == []
  }

  // ---------------------------------------------------------------------
  // Properties
  // ---------------------------------------------------------------------

  /** Reading a publication back gives its book, when the book has no empty
      `links` or `images` list. */
  lemma {:induction false} BookOfPublication(book: Record, modified: string)
    requires NoEmptyLists(book)
    ensures BookOf(PublicationOf(book, modified)) == book
  {
    var p := PublicationOf(book, modified);
    var r := BookOf(p);
    forall k ensures k in r <==> k in book {
      if k != Links && k != Images {
        assert k in r <==> k in p.metadata.fields;
      }
    }
    forall k | k in r ensures r[k] == book[k] {
      if k != Links && k != Images {
        assert r[k] == p.metadata.fields[k];
      }
    }
  }

  /** Feeding more books appends their publications: the feed of `a + b`
      lists the publications of `a`, then those of `b`. */
  lemma PublicationsConcat(a: seq<Record>, sa: seq<string>, b: seq<Record>, sb: seq<string>)
    requires |sa| == |a| && |sb| == |b|
    ensures Publications(a + b, sa + sb) == Publications(a, sa) + Publications(b, sb)
  {
    var lhs := Publications(a + b, sa + sb);
    var rhs := Publications(a, sa) + Publications(b, sb);
    forall i | 0 <= i < |lhs| ensures lhs[i] == rhs[i] {
      assert lhs[i] == PublicationOf((a + b)[i], (sa + sb)[i]);
      if i < |a| {
        assert (a + b)[i] == a[i] && (sa + sb)[i] == sa[i];
        assert rhs[i] == Publications(a, sa)[i];
      } else {
        assert (a + b)[i] == b[i - |a|] && (sa + sb)[i] == sb[i - |a|];
        assert rhs[i] == Publications(b, sb)[i - |a|];
      }
    }
  }

  // ---------------------------------------------------------------------
  // The loop
  // ---------------------------------------------------------------------

  /** The loop of `transform_to_opds`: for each book, start the metadata
      with `@type` and `modified`, update it with the book's other entries,
      and append the publication. */
  method TransformToOpds(books: seq<Record>, baseUrl: string, stamps: seq<string>) returns (feed: Feed)
    requires |stamps| == |books|
    ensures feed == OpdsFeed(books, baseUrl, stamps)
  {
    var publications: seq<Publication> := [];
    for i := 0 to |books|
      invariant |publications| == i
      invariant forall j :: 0 <= j < i ==> publications[j] == PublicationOf(books[j], stamps[j])
    {
      var book := books[i];
      var metadata := Metadata(BookType, stamps[i], map[]);
      metadata := metadata.(fields := metadata.fields + (book - {Links, Images}));
      var publication := Publication(metadata, GetOrEmpty(book, Links), GetOrEmpty(book, Images));
      assert publication == PublicationOf(book, stamps[i]);
      publications := publications + [publication];
    }
    assert publications == Publications(books, stamps);
    feed := Feed(FeedTitle, |publications|, [SelfLink(baseUrl)], publications);
  }
}
