/** The data loader of the site's index route: it turns the items of the
    Letterboxd RSS feed, as xml2js parses them, into a list of films. */
module IndexRoute {
  import opened Wrappers
  import JsArray
  import JsString

  /** One `<item>` of the feed as xml2js gives it: each child element's
      name maps to the array of that element's text values. */
  type Item = map<string, seq<string>>

  /** The feed fields the loader reads. */
  const DescriptionField := "description"
  const LinkField := "link"
  const PubDateField := "pubDate"
  const RatingField := "letterboxd:memberRating"
  const RewatchField := "letterboxd:rewatch"
  const TitleField := "letterboxd:filmTitle"
  const YearField := "letterboxd:filmYear"

  /** The separator that ends the poster paragraph of a description. */
  const ParagraphEnd := "</p>"
  /** The separator around the poster URL in a description. */
  const Quote := "\""

  /** One reviewed film. The fields declared `string` in the TypeScript
      `Film` interface are `Option` where the code can leave them `undefined`. */
  datatype Film = Film(
    imageUrl: Option<string>,
    link: Option<string>,
    publishedAt: Option<string>,
    rating: Option<string>,
    review: string,
    rewatched: bool,
    title: Option<string>,
    year: Option<string>)

  /** A JavaScript `TypeError`: the loader read a property of `undefined`
      or `null`. `field` names the item field that was missing, or, on the
      path to the item list, the property that could not be read. */
  datatype TypeError = TypeError(field: string)

  /** What the loader hands to the page. */
  datatype LoaderData = LoaderData(ok: bool, films: seq<Film>)

  /** `item[key]?.[0]`: the first value of an optional field. */
  function OptionalFirst(item: Item, key: string): (r: Option<string>)
    ensures r.Some? <==> key in item && |item[key]| > 0
    ensures r.Some? ==> r.value == item[key][0]
  {
    if key in item then JsArray.Index(item[key], 0) else None
  }

  /** `item[key][0]` without safe navigation: throws when the field is absent,
      and is `undefined` when its array is empty. */
  function RequiredFirst(item: Item, key: string): (r: Result<Option<string>, TypeError>)
    ensures r.Failure? <==> key !in item
    ensures r.Success? ==> r.value == OptionalFirst(item, key)
  {
    if key in item then Success(JsArray.Index(item[key], 0)) else Failure(TypeError(key))
  }

  /** The review body: the description split on `</p>`, its first piece
      shifted off, and the rest joined back with `</p>`. */
  function ReviewOf(description: string): string {
    JsString.Join(JsArray.Shift(JsString.Split(description, ParagraphEnd)).rest, ParagraphEnd)
  }

  /** The poster URL: element 1 of the description split on `"`. */
  function ImageUrlOf(description: string): Option<string> {
    JsArray.Index(JsString.Split(description, Quote), 1)
  }

  /** The `Film` the loop body pushes for one item, or the `TypeError` it
      throws. The object literal is evaluated in source order, so the
      error names the first required field found missing. */
  function NormalizeItem(item: Item): (r: Result<Film, TypeError>)
    ensures r.Success? <==>
      DescriptionField in item && |item[DescriptionField]| > 0 &&
      LinkField in item && PubDateField in item
  {
    match RequiredFirst(item, DescriptionField)
    case Failure(e) => Failure(e)
    case Success(None) => Failure(TypeError(DescriptionField))  // `undefined.split(...)`
    case Success(Some(description)) =>
      var review := ReviewOf(description);
      var imageUrl := ImageUrlOf(description);
      match RequiredFirst(item, LinkField)
      case Failure(e) => Failure(e)
      case Success(link) =>
        match RequiredFirst(item, PubDateField)
        case Failure(e) => Failure(e)
        case Success(publishedAt) =>
          Success(Film(
            imageUrl := imageUrl,
            link := link,
            publishedAt := publishedAt,
            rating := OptionalFirst(item, RatingField),
            review := review,
            rewatched := OptionalFirst(item, RewatchField) == Some("Yes"),
            title := OptionalFirst(item, TitleField),
            year := OptionalFirst(item, YearField)))
  }

  /** The results the loop pushes when `body` is run on each item in turn
      and a throw ends the loop: the films of the items before the first
      one that throws. */
  function Pushed<X, F, E>(body: X -> Result<F, E>, items: seq<X>): seq<F> {
    if items == [] then []
    else
      match body(items[0])
      case Failure(_) => []
      case Success(film) => [film] + Pushed(body, items[1..])
  }

  /** The films the loop has pushed once it is done with `items`. */
  function Normalized(items: seq<Item>): seq<Film> {
    Pushed(NormalizeItem, items)
  }

  /** `rss.channel[0]` of the parsed document; `item` is `None` when the
      channel has no `<item>` element, since xml2js then omits the key. */
  datatype Channel = Channel(item: Option<seq<Item>>)

  /** `response.rss.channel[0].item`, the array the loop runs over. `rss`
      holds the `channel` array, and is `None` when `response.rss.channel`
      cannot be read: the fetch or the parse failed, or the document has no
      `rss` root or no `channel`. Every missing step throws. */
  function FilmList(rss: Option<seq<Channel>>): (r: Result<seq<Item>, TypeError>)
    ensures r.Success? <==> rss.Some? && |rss.value| > 0 && rss.value[0].item.Some?
    ensures r.Success? ==> r.value == rss.value[0].item.value
  {
    match rss
    case None => Failure(TypeError("channel"))
    case Some(channels) =>
      match JsArray.Index(channels, 0)
      case None => Failure(TypeError("item"))
      case Some(channel) =>
        match channel.item
        case None => Failure(TypeError("length"))
        case Some(items) => Success(items)
  }

  /** The review is the description after its first `</p>`, and empty when
      the description has none. */
  lemma ReviewIsTextAfterFirstParagraph(description: string)
    ensures match JsString.IndexOf(description, ParagraphEnd)
      case None => ReviewOf(description) == ""
      case Some(i) => i + |ParagraphEnd| <= |description| &&
                      ReviewOf(description) == description[i + |ParagraphEnd|..]
  {
    match JsString.IndexOf(description, ParagraphEnd)
    case None =>
      JsString.SplitWithout(description, ParagraphEnd);
    case Some(i) =>
      JsString.SplitAtFirst(description, ParagraphEnd, i);
      JsString.JoinSplit(description[i + |ParagraphEnd|..], ParagraphEnd);
  }

  /** With a `</p>` in the description, the first piece of the split, the
      separator and the review put together give the description back, and
      that first piece holds no `</p>`. */
  lemma ReviewRoundTrip(description: string)
    requires JsString.IndexOf(description, ParagraphEnd).Some?
    ensures JsString.Split(description, ParagraphEnd)[0] + ParagraphEnd + ReviewOf(description) == description
    ensures JsString.IndexOf(JsString.Split(description, ParagraphEnd)[0], ParagraphEnd).None?
  {
    var i := JsString.IndexOf(description, ParagraphEnd).value;
    JsString.SplitAtFirst(description, ParagraphEnd, i);
    ReviewIsTextAfterFirstParagraph(description);
    JsString.SplitPartsFree(description, ParagraphEnd);
  }

  /** Position `i` holds the first `"` of `description`. */
  predicate FirstQuoteAt(description: string, i: int) {
    0 <= i < |description| && description[i] == '"' && '"' !in description[..i]
  }

  /** `url` follows position `i` of `description` and runs up to the next
      `"` or to the end. */
  predicate QuotedFrom(description: string, i: nat, url: string) {
    i + 1 + |url| <= |description| &&
    description[i + 1..i + 1 + |url|] == url &&
    '"' !in url &&
    (i + 1 + |url| == |description| || description[i + 1 + |url|] == '"')
  }

  /** The first piece of a split on `"` is the text up to the first `"`,
      or all of it. */
  lemma FirstQuotePiece(s: string)
    ensures var u := JsString.Split(s, Quote)[0];
      |u| <= |s| && s[..|u|] == u && '"' !in u && (|u| == |s| || s[|u|] == '"')
  {
    assert Quote == ['"'];
    JsString.IndexOfChar(s, '"');
    match JsString.IndexOf(s, Quote)
    case None =>
      JsString.SplitWithout(s, Quote);
    case Some(k) =>
      JsString.SplitAtFirst(s, Quote, k);
  }

  /** A string has at most one first `"`. */
  lemma FirstQuoteUnique(description: string, i: int, j: int)
    requires FirstQuoteAt(description, i) && FirstQuoteAt(description, j)
    ensures i == j
  {
  }

  /** With the first `"` at position `i`, the poster URL is the first piece
      of the text after it. */
  lemma ImageUrlIsPieceAfterQuote(description: string, i: nat)
    requires JsString.IndexOf(description, Quote) == Some(i)
    ensures i < |description|
    ensures ImageUrlOf(description) == Some(JsString.Split(description[i + 1..], Quote)[0])
  {
    JsString.SplitAtFirst(description, Quote, i);
    var parts := JsString.Split(description[i + |Quote|..], Quote);
    assert JsString.Split(description, Quote) == [description[..i]] + parts;
    assert JsString.Split(description, Quote)[1] == parts[0];
  }

  /** The first piece of the text after position `i`, split on `"`, is
      quoted from `i`. */
  lemma QuotedAfter(description: string, i: nat)
    requires i < |description|
    ensures QuotedFrom(description, i, JsString.Split(description[i + 1..], Quote)[0])
  {
    var rest := description[i + 1..];
    var url := JsString.Split(rest, Quote)[0];
    FirstQuotePiece(rest);
    assert description[i + 1..i + 1 + |url|] == rest[..|url|];
  }

  /** With a `"` at position `i` found first, the poster URL is the text
      quoted from there. */
  lemma ImageUrlAfterQuote(description: string, i: nat)
    requires JsString.IndexOf(description, Quote) == Some(i)
    ensures ImageUrlOf(description).Some? && QuotedFrom(description, i, ImageUrlOf(description).value)
  {
    ImageUrlIsPieceAfterQuote(description, i);
    QuotedAfter(description, i);
  }

  /** The poster URL is undefined exactly when the description has no `"`;
      otherwise it is the text after the first `"` up to the next one (or
      the end), and it holds no `"`. */
  lemma ImageUrlIsFirstQuoted(description: string)
    ensures ImageUrlOf(description).None? <==> '"' !in description
    ensures forall i :: FirstQuoteAt(description, i) ==>
      ImageUrlOf(description).Some? && QuotedFrom(description, i, ImageUrlOf(description).value)
  {
    assert Quote == ['"'];
    JsString.IndexOfChar(description, '"');
    match JsString.IndexOf(description, Quote)
    case None =>
      JsString.SplitWithout(description, Quote);
    case Some(i) =>
      ImageUrlAfterQuote(description, i);
      assert FirstQuoteAt(description, i);
      forall j | FirstQuoteAt(description, j) ensures j == i {
        FirstQuoteUnique(description, i, j);
      }
  }

  /** What a pushed film holds, in terms of the item it came from. */
  lemma NormalizeItemFields(item: Item, film: Film)
    requires NormalizeItem(item) == Success(film)
    ensures var description := item[DescriptionField][0];
      (film.imageUrl.None? <==> '"' !in description) &&
      (forall i :: FirstQuoteAt(description, i) ==> film.imageUrl.Some? && QuotedFrom(description, i, film.imageUrl.value)) &&
      (match JsString.IndexOf(description, ParagraphEnd)
        case None => film.review == ""
        case Some(i) => i + |ParagraphEnd| <= |description| && film.review == description[i + |ParagraphEnd|..])
    ensures film.link == (if |item[LinkField]| > 0 then Some(item[LinkField][0]) else None)
    ensures film.publishedAt == (if |item[PubDateField]| > 0 then Some(item[PubDateField][0]) else None)
    ensures film.rewatched <==> RewatchField in item && |item[RewatchField]| > 0 && item[RewatchField][0] == "Yes"
    ensures film.rating.Some? <==> RatingField in item && |item[RatingField]| > 0
    ensures film.rating.Some? ==> film.rating.value == item[RatingField][0]
    ensures film.title.Some? <==> TitleField in item && |item[TitleField]| > 0
    ensures film.title.Some? ==> film.title.value == item[TitleField][0]
    ensures film.year.Some? <==> YearField in item && |item[YearField]| > 0
    ensures film.year.Some? ==> film.year.value == item[YearField][0]
  {
    var description := item[DescriptionField][0];
    ImageUrlIsFirstQuoted(description);
    ReviewIsTextAfterFirstParagraph(description);
  }

  /** What is pushed for a non-empty list of items, in terms of its first item. */
  lemma PushedCons<X, F, E>(body: X -> Result<F, E>, items: seq<X>)
    requires items != []
    ensures body(items[0]).Failure? ==> Pushed(body, items) == []
    ensures body(items[0]).Success? ==>
      Pushed(body, items) == [body(items[0]).value] + Pushed(body, items[1..])
  {
  }

  /** At most one film per item; film `k` comes from item `k`; and a list
      shorter than the feed stops at an item that throws. */
  lemma {:induction false} PushedOnePerItem<X, F, E>(body: X -> Result<F, E>, items: seq<X>)
    ensures |Pushed(body, items)| <= |items|
    ensures forall k :: 0 <= k < |Pushed(body, items)| ==> body(items[k]) == Success(Pushed(body, items)[k])
    ensures |Pushed(body, items)| < |items| ==> body(items[|Pushed(body, items)|]).Failure?
  {
    if items != [] {
      PushedCons(body, items);
      if body(items[0]).Success? {
        var films := Pushed(body, items);
        var rest := Pushed(body, items[1..]);
        PushedOnePerItem(body, items[1..]);
        assert films == [films[0]] + rest;
        forall k | 1 <= k < |films| ensures body(items[k]) == Success(films[k]) {
          assert items[1..][k - 1] == items[k] && rest[k - 1] == films[k];
        }
        if |films| < |items| {
          assert items[1..][|rest|] == items[|films|];
        }
      }
    }
  }

  /** There is one film per item exactly when no item throws. */
  lemma {:induction false} PushedComplete<X, F, E>(body: X -> Result<F, E>, items: seq<X>)
    ensures |Pushed(body, items)| == |items| <==> forall k :: 0 <= k < |items| ==> body(items[k]).Success?
  {
    PushedOnePerItem(body, items);
    if items != [] {
      PushedCons(body, items);
      if body(items[0]).Success? {
        PushedComplete(body, items[1..]);
        assert forall k :: 1 <= k < |items| ==> items[1..][k - 1] == items[k];
      }
    }
  }

  /** The films pushed while the loop works on the first `n` items stay, as
      they are, at the front of the final list. */
  lemma {:induction false} PushedPrefix<X, F, E>(body: X -> Result<F, E>, items: seq<X>, n: nat)
    requires n <= |items|
    ensures Pushed(body, items[..n]) <= Pushed(body, items)
  {
    if n > 0 {
      var front := items[..n];
      assert front[0] == items[0];
      assert front[1..] == items[1..][..n - 1];
      PushedCons(body, items);
      PushedCons(body, front);
      PushedPrefix(body, items[1..], n - 1);
    }
  }

  /** The loader's films: film `k` is the normalisation of item `k`, in feed
      order; there are as many films as items exactly when no item throws,
      and otherwise the list ends at the first item that throws. */
  lemma NormalizedOnePerItem(items: seq<Item>)
    ensures |Normalized(items)| <= |items|
    ensures forall k :: 0 <= k < |Normalized(items)| ==> NormalizeItem(items[k]) == Success(Normalized(items)[k])
    ensures |Normalized(items)| == |items| <==> forall k :: 0 <= k < |items| ==> NormalizeItem(items[k]).Success?
    ensures |Normalized(items)| < |items| ==> NormalizeItem(items[|Normalized(items)|]).Failure?
  {
    PushedOnePerItem(NormalizeItem, items);
    PushedComplete(NormalizeItem, items);
  }

  /** The loader: one `Film` pushed per item, in feed order, until an item
      throws; any throw is caught and logged, and the answer is always
      `ok: true` with the films pushed so far. */
  method Loader(rss: Option<seq<Channel>>) returns (data: LoaderData)
    ensures data.ok
    ensures data.films == match FilmList(rss)
      case Failure(_) => []
      case Success(items) => Normalized(items)
  {
    var films: seq<Film> := [];
    match FilmList(rss) {
      case Failure(_) =>
      case Success(filmList) =>
        var i := 0;
        while i < |filmList|
          invariant 0 <= i <= |filmList|
          invariant films + Normalized(filmList[i..]) == Normalized(filmList)
        {
          PushedCons(NormalizeItem, filmList[i..]);
          assert filmList[i..][0] == filmList[i];
          assert filmList[i..][1..] == filmList[i + 1..];
          match NormalizeItem(filmList[i]) {
            case Failure(_) =>
              break;
            case Success(film) =>
              films := films + [film];
          }
          i := i + 1;
        }
    }
    data := LoaderData(true, films);
  }
}
