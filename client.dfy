/** The browser client of the resource service (`public/script.js`) without
    its DOM and network parts: the form validator, the page arithmetic of
    `loadResources` and `renderPagination`, and the state the
    `ResourceManager` keeps between requests. */
module Client {
  import opened Wrappers
  import opened JsText
  import opened ResourceTypes
  import opened Validation
  import StringOrder

  /** `PAGE_SIZE`: the client asks for twelve rows a page. */
  const PageSize: int := 12

  /** What the create and edit forms send, each text already trimmed. */
  datatype FormResource = FormResource(name: string, description: string, category: string, status: string)

  /** The resource the form handlers build from the raw form fields. */
  function FromForm(name: string, description: string, category: string, status: string): (r: FormResource)
    ensures r.name == Trim(name) && r.description == Trim(description) && r.category == Trim(category)
    ensures r.status == status
  {
    FormResource(Trim(name), Trim(description), Trim(category), status)
  }

  /** `validateResource`: name, then description, then category; the first
      message that applies, or `None` for `null`. The status is not looked
      at. The client's texts are the create schema's own (`CustomText`), so
      the message is given as the schema's message value. */
  function ValidateResource(r: FormResource): (m: Option<Message>)
    ensures m.None? <==>
      1 <= |r.name| <= 255 && 1 <= |r.description| <= 1000 && 1 <= |r.category| <= 100
    ensures m.Some? ==> !m.value.JoiDefault? && !m.value.CannotBeEmpty?
    ensures r.name == [] ==> m == Some(IsRequired(NameKey))
    ensures |r.name| > 255 ==> m == Some(TooLong(NameKey, 255))
    ensures 1 <= |r.name| <= 255 && r.description == [] ==> m == Some(IsRequired(DescriptionKey))
    ensures 1 <= |r.name| <= 255 && |r.description| > 1000 ==> m == Some(TooLong(DescriptionKey, 1000))
    ensures (1 <= |r.name| <= 255 && 1 <= |r.description| <= 1000 && r.category == []) ==>
      m == Some(IsRequired(CategoryKey))
    ensures (1 <= |r.name| <= 255 && 1 <= |r.description| <= 1000 && |r.category| > 100) ==>
      m == Some(TooLong(CategoryKey, 100))
  {
    if |r.name| == 0 then Some(IsRequired(NameKey))
    else if |r.name| > 255 then Some(TooLong(NameKey, 255))
    else if |r.description| == 0 then Some(IsRequired(DescriptionKey))
    else if |r.description| > 1000 then Some(TooLong(DescriptionKey, 1000))
    else if |r.category| == 0 then Some(IsRequired(CategoryKey))
    else if |r.category| > 100 then Some(TooLong(CategoryKey, 100))
    else None
  }

  /** The JSON body the client posts for a form resource. */
  function BodyOf(r: FormResource): Body {
    Object(Text(r.name), Text(r.description), Text(r.category), Text(r.status), [])
  }

  /** On a text that is already trimmed the server's string rule is a
      length check. */
  lemma TrimmedField(t: string, rule: TextRule)
    requires IsTrimmed(t)
    ensures CheckText(Text(t), rule).Success? <==> 1 <= |t| <= rule.max
    ensures CheckText(Text(t), rule).Success? ==> CheckText(Text(t), rule).value == Some(t)
    ensures t == [] ==> CheckText(Text(t), rule) == Failure(EmptyMessage(rule))
    ensures |t| > rule.max ==> CheckText(Text(t), rule) == Failure(TooLong(rule.field, rule.max))
  {
    TrimFixesTrimmed(t);
    assert t == [] ==> AllWhitespace(t);
  }

  /** A form whose texts are already trimmed, as the form handlers make them. */
  predicate Trimmed(r: FormResource) {
    IsTrimmed(r.name) && IsTrimmed(r.description) && IsTrimmed(r.category)
  }

  lemma FromFormTrimmed(name: string, description: string, category: string, status: string)
    ensures Trimmed(FromForm(name, description, category, status))
  {
    TrimFixesTrimmed(name);
    TrimFixesTrimmed(description);
    TrimFixesTrimmed(category);
  }

  /** The client agrees with the server's create schema on every form it
      can send (trimmed texts, a status picked from the select): it lets a
      form through exactly when the server accepts it, and then the server
      keeps the texts as sent. */
  lemma ClientAcceptsLikeServer(r: FormResource, status: Status)
    requires Trimmed(r) && r.status == StatusText(status)
    ensures ValidateResource(r).None? <==> ValidateCreate(BodyOf(r)).Success?
    ensures ValidateResource(r).None? ==>
      ValidateCreate(BodyOf(r)).value == CreateResourceInput(r.name, r.description, r.category, Some(status))
  {
    var body := BodyOf(r);
    assert TextWithin(body.name, 255) <==> 1 <= |r.name| <= 255 by {
      TrimmedField(r.name, NameOnCreate);
    }
    assert TextWithin(body.description, 1000) <==> 1 <= |r.description| <= 1000 by {
      TrimmedField(r.description, DescriptionOnCreate);
    }
    assert TextWithin(body.category, 100) <==> 1 <= |r.category| <= 100 by {
      TrimmedField(r.category, CategoryOnCreate);
    }
    assert StatusAllowed(body.status) && ParseStatus(body.status.text) == Some(status) by {
      StatusRoundTrip(status, []);
    }
    assert Trim(r.name) == r.name && Trim(r.description) == r.description && Trim(r.category) == r.category by {
      TrimFixesTrimmed(r.name);
      TrimFixesTrimmed(r.description);
      TrimFixesTrimmed(r.category);
    }
  }

  /** When the client stops a form it shows the message the server would
      have answered with. */
  lemma ClientRejectsLikeServer(r: FormResource)
    requires Trimmed(r)
    requires ValidateResource(r).Some?
    ensures ValidateCreate(BodyOf(r)) == Failure(ValidateResource(r).value)
  {
    var body := BodyOf(r);
    var m := ValidateResource(r).value;
    if !(1 <= |r.name| <= 255) {
      assert CheckText(body.name, NameOnCreate) == Failure(m) by {
        TrimmedField(r.name, NameOnCreate);
      }
    } else if !(1 <= |r.description| <= 1000) {
      assert TextWithin(body.name, 255) by {
        TrimmedField(r.name, NameOnCreate);
      }
      assert CheckText(body.description, DescriptionOnCreate) == Failure(m) by {
        TrimmedField(r.description, DescriptionOnCreate);
      }
    } else {
      assert TextWithin(body.name, 255) by {
        TrimmedField(r.name, NameOnCreate);
      }
      assert TextWithin(body.description, 1000) by {
        TrimmedField(r.description, DescriptionOnCreate);
      }
      if r.category == [] {
        assert CheckText(body.category, CategoryOnCreate) == Failure(IsRequired(CategoryKey)) by {
          TrimmedField(r.category, CategoryOnCreate);
        }
      } else {
        assert CheckText(body.category, CategoryOnCreate) == Failure(TooLong(CategoryKey, 100)) by {
          TrimmedField(r.category, CategoryOnCreate);
        }
      }
    }
  }

  /** A form the client lets through is also a valid update: the edit form
      always sends all four keys. */
  lemma ClientPassesUpdate(r: FormResource, status: Status)
    requires Trimmed(r) && r.status == StatusText(status)
    requires ValidateResource(r).None?
    ensures ValidateUpdate(BodyOf(r)).Success?
  {
    var body := BodyOf(r);
    assert OptionalTextWithin(body.name, 255) by {
      TrimmedField(r.name, NameOnUpdate);
    }
    assert OptionalTextWithin(body.description, 1000) by {
      TrimmedField(r.description, DescriptionOnUpdate);
    }
    assert OptionalTextWithin(body.category, 100) by {
      TrimmedField(r.category, CategoryOnUpdate);
    }
    assert StatusAllowed(body.status) by {
      StatusRoundTrip(status, []);
    }
    assert !NoKeys(body);
  }

  /** The offset `loadResources` asks for. */
  function RequestOffset(page: nat): (offset: nat)
    ensures offset % PageSize == 0
  {
    page * PageSize
  }

  /** `Math.floor(offset / limit)`; the divisor is positive, so Dafny's
      division floors too. */
  function CurrentPage(offset: int, limit: int): (p: int)
    requires limit >= 1
    ensures p * limit <= offset < (p + 1) * limit
  {
    offset / limit
  }

  /** `Math.ceil(total / limit)`: the fewest pages of `limit` rows that
      hold `total` rows. */
  function TotalPages(total: int, limit: int): (n: int)
    requires limit >= 1
    ensures (n - 1) * limit < total <= n * limit
  {
    -((-total) / limit)
  }

  /** The page the client asks for is the page it shows. */
  lemma CurrentPageOfRequest(page: nat)
    ensures CurrentPage(RequestOffset(page), PageSize) == page
  {
  }

  /** For a page the client asked for, the server's `hasMore` is exactly
      "this is not the last page". */
  lemma HasMoreIsNotLastPage(page: nat, limit: int, total: int)
    requires limit >= 1
    ensures page * limit + limit < total <==> page + 1 < TotalPages(total, limit)
  {
    var n := TotalPages(total, limit);
    if page + 1 < n {
      assert (page + 1) * limit <= (n - 1) * limit by {
        MultiplyMonotone(page + 1, n - 1, limit);
      }
    } else {
      assert n * limit <= (page + 1) * limit by {
        MultiplyMonotone(n, page + 1, limit);
      }
    }
  }

  lemma MultiplyMonotone(a: int, b: int, k: nat)
    requires a <= b
    ensures a * k <= b * k
  {
  }

  /** What `renderPagination` shows: the page number, the page count and
      the state and target of both buttons. */
  datatype PaginationView = PaginationView(
    currentPage: int,
    totalPages: int,
    previousDisabled: bool,
    previousTarget: int,
    nextDisabled: bool,
    nextTarget: int)

  function RenderPagination(total: int, limit: int, offset: int, hasMore: bool): (v: PaginationView)
    requires limit >= 1
    ensures v.previousDisabled <==> v.currentPage == 0
    ensures v.nextDisabled <==> !hasMore
    ensures v.previousTarget == v.currentPage - 1 && v.nextTarget == v.currentPage + 1
    ensures v.currentPage * limit <= offset < (v.currentPage + 1) * limit
    ensures (v.totalPages - 1) * limit < total <= v.totalPages * limit
  {
    var current := CurrentPage(offset, limit);
    PaginationView(current, TotalPages(total, limit), current == 0, current - 1, !hasMore, current + 1)
  }

  /** The filter keys the client may hold (`this.filters`). */
  datatype Filters = Filters(category: Option<string>, status: Option<string>, search: Option<string>)

  const NoFilters := Filters(None, None, None)

  /** A key of the request query: a missing filter is not sent. */
  function QueryField(f: Option<string>): Field {
    if f.Some? then Text(f.value) else Absent
  }

  /** The query of `loadResources`, its empty-value clean-up aside. */
  function RequestQuery(page: nat, filters: Filters): Query {
    Query(QueryField(filters.category), QueryField(filters.status), QueryField(filters.search),
      Finite(PageSize as real), Finite(RequestOffset(page) as real), [])
  }

  /** Filters within the server's bounds: a status from the select, a
      category from the loaded options and a search of at most 255
      characters. The search box itself has no length limit; see
      `LongSearchRefused`. */
  predicate SendableFilters(filters: Filters) {
    && (filters.category.Some? ==> |filters.category.value| <= 100)
    && (filters.search.Some? ==> |filters.search.value| <= 255)
    && (filters.status.Some? ==> filters.status.value == [] || ParseStatus(filters.status.value).Some?)
  }

  /** Every page request whose filters are within the server's bounds
      passes the server's filter schema, and the server pages by the
      client's size and offset. */
  lemma RequestAccepted(page: nat, filters: Filters)
    requires SendableFilters(filters)
    requires RequestOffset(page) <= MaxSafeInteger
    ensures var r := ValidateFilters(RequestQuery(page, filters));
      && r.Success?
      && r.value.limit == Some(PageSize)
      && r.value.offset == Some(RequestOffset(page))
  {
    var offset := RequestOffset(page);
    assert (offset as real).Floor == offset;
    assert (PageSize as real).Floor == PageSize;
  }

  /** A search text longer than 255 characters, which the search box
      lets through, makes the server refuse the page request. */
  lemma LongSearchRefused(page: nat, filters: Filters)
    requires filters.search.Some? && |filters.search.value| > 255
    ensures ValidateFilters(RequestQuery(page, filters)).Failure?
  {
  }

  /** The page state of the client. `categories` is the JavaScript `Set`:
      its elements in insertion order. */
  class ResourceManager {
    var currentPage: int
    var filters: Filters
    var categories: seq<string>

    ghost predicate Valid()
      reads this
    {
      currentPage >= 0 && StringOrder.Distinct(categories)
    }

    /** The state before the first load. */
    constructor ()
      ensures Valid()
      ensures currentPage == 0 && filters == NoFilters && categories == []
    {
      currentPage := 0;
      filters := NoFilters;
      categories := [];
    }

    /** `changePage`: a negative page is ignored. */
    method ChangePage(page: int)
      requires Valid()
      modifies this
      ensures Valid()
      ensures page < 0 ==> currentPage == old(currentPage)
      ensures page >= 0 ==> currentPage == page
      ensures filters == old(filters) && categories == old(categories)
    {
      if page < 0 {
        return;
      }
      currentPage := page;
    }

    /** `clearFilters`: no filter and the first page. */
    method ClearFilters()
      requires Valid()
      modifies this
      ensures Valid()
      ensures filters == NoFilters && currentPage == 0
      ensures categories == old(categories)
    {
      filters := NoFilters;
      currentPage := 0;
    }

    /** `updateCategoryFilter`: every category of the loaded rows joins the
      set, which only grows and keeps its first-insertion order; the
      options are the set sorted, each once. */
    method UpdateCategoryFilter(resources: seq<Resource>) returns (options: seq<string>)
      requires Valid()
      modifies this
      ensures Valid()
      ensures |old(categories)| <= |categories| && categories[..|old(categories)|] == old(categories)
      ensures forall c :: c in categories <==> c in old(categories) || exists r :: r in resources && r.category == c
      ensures currentPage == old(currentPage) && filters == old(filters)
      ensures StringOrder.StrictlySorted(options)
      ensures forall c :: c in options <==> c in categories
    {
      var i := 0;
      while i < |resources|
        invariant 0 <= i <= |resources|
        invariant StringOrder.Distinct(categories)
        invariant |old(categories)| <= |categories| && categories[..|old(categories)|] == old(categories)
        invariant forall c :: c in categories <==>
          c in old(categories) || exists k :: 0 <= k < i && resources[k].category == c
        invariant currentPage == old(currentPage) && filters == old(filters)
      {
        var c := resources[i].category;
        if c !in categories {
          StringOrder.DistinctAppend(categories, c);
          categories := categories + [c];
        }
        i := i + 1;
      }
      forall c | c in categories
        ensures c in old(categories) || exists r :: r in resources && r.category == c
      {
        if c !in old(categories) {
          var k :| 0 <= k < |resources| && resources[k].category == c;
          assert resources[k] in resources;
        }
      }
      forall c | (exists r :: r in resources && r.category == c)
        ensures c in categories
      {
        var r :| r in resources && r.category == c;
        var k :| 0 <= k < |resources| && resources[k] == r;
      }
      options := StringOrder.Sort(categories);
      forall c ensures c in options <==> c in categories {
        assert c in options <==> c in multiset(options);
        assert c in categories <==> c in multiset(categories);
      }
      StringOrder.SortDistinct(categories);
    }
  }
}
