/**
 * The shared journal list of the app (`JournalProvider`): an in-memory list
 * with `loading` and `refreshing` flags, mirrored to a persisted cache slot
 * and refreshed from the backend's list endpoint.
 *
 * The backend is a parameter: `ListResponse` is what `GET /journal` answers
 * when the request is made. Each call of `FetchJournals` is one sequential
 * step; overlapping calls are not modelled.
 */
module JournalContext {
  import opened Wrappers
  import Json
  import opened Storage

  datatype Journal = Journal(id: int, title: string, content: string, createdAt: string)

  const CachedJournalsKey: string := "@cached_journals"

  /** What the list endpoint answers: a 2xx answer with the journals, or a rejected request (network or status). */
  datatype ListResponse = Listed(journals: seq<Journal>) | RequestFailed

  // ------------------------------------------------------ persisted format

  function FromObject(o: Json.Object): Option<Journal>
  {
    if |o| == 4
       && o[0].0 == "id" && o[0].1.Num?
       && o[1].0 == "title" && o[1].1.Str?
       && o[2].0 == "content" && o[2].1.Str?
       && o[3].0 == "created_at" && o[3].1.Str?
    then Some(Journal(o[0].1.n, o[1].1.s, o[2].1.s, o[3].1.s))
    else None
  }

  /** The object `JSON.stringify` writes for a journal, with the backend's field names. */
  function ToObject(j: Journal): (o: Json.Object)
    ensures FromObject(o) == Some(j)
  {
    [("id", Json.Num(j.id)), ("title", Json.Str(j.title)),
     ("content", Json.Str(j.content)), ("created_at", Json.Str(j.createdAt))]
  }

  /** `JSON.stringify(journals)`. */
  function Serialize(js: seq<Journal>): string
  {
    Json.EncodeRecords(js, ToObject)
  }

  /** `JSON.parse(text) as Journal[]`; `None` where parsing throws. */
  function Parse(text: string): Option<seq<Journal>>
  {
    Json.DecodeRecords(text, FromObject)
  }

  lemma ParseOfSerialize(js: seq<Journal>)
    ensures Parse(Serialize(js)) == Some(js)
  {
    assert forall j :: FromObject(ToObject(j)) == Some(j);
    Json.DecodeRecordsOfEncoded(js, ToObject, FromObject);
  }

  // --------------------------------------------------- storage operations

  /**
   * `loadJournalsFromStorage`: the cached list, or the empty list when the
   * slot is missing, empty or does not parse.
   */
  function CachedJournals(items: map<string, string>): (r: seq<Journal>)
    ensures CachedJournalsKey !in items ==> r == []
    ensures CachedJournalsKey in items && Parse(items[CachedJournalsKey]).None? ==> r == []
    ensures CachedJournalsKey in items && Parse(items[CachedJournalsKey]).Some? ==>
              r == Parse(items[CachedJournalsKey]).value
  {
    if CachedJournalsKey in items && items[CachedJournalsKey] != "" then
      match Parse(items[CachedJournalsKey])
      case Some(js) => js
      case None => []
    else []
  }

  /**
   * `saveJournalsToStorage`: the storage after writing `js` to the cache
   * slot. Loading the cache afterwards gives `js` back, and no other key
   * changes.
   */
  function WithCache(items: map<string, string>, js: seq<Journal>): (r: map<string, string>)
    ensures CachedJournals(r) == js
    ensures r.Keys == items.Keys + {CachedJournalsKey}
    ensures forall k :: k in items && k != CachedJournalsKey ==> r[k] == items[k]
  {
    ParseOfSerialize(js);
    assert Serialize(js) != "";
    items[CachedJournalsKey := Serialize(js)]
  }

  /** The bearer token, if one is stored and is not the empty string (`!token` in JavaScript). */
  function AuthToken(items: map<string, string>): (r: Option<string>)
    ensures r.Some? <==> AuthTokenKey in items && items[AuthTokenKey] != ""
    ensures r.Some? ==> r.value == items[AuthTokenKey]
  {
    if AuthTokenKey in items && items[AuthTokenKey] != "" then Some(items[AuthTokenKey]) else None
  }

  /**
   * A cache whose first journal has its `id` written with a leading zero is
   * not JSON: loading it gives the empty list, whatever follows.
   */
  lemma LeadingZeroCacheIsEmpty(d: char, rest: string)
    requires Json.IsDigit(d)
    ensures CachedJournals(map[CachedJournalsKey := "[{" + Json.EncodeString("id") + ":0" + [d] + rest]) == []
  {
    Json.DecodeArrayOfLeadingZero("id", d, rest);
  }

  // ------------------------------------------------------ fetch protocol

  /** What a render of the provider shows. */
  datatype View = View(journals: seq<Journal>, loading: bool, refreshing: bool)

  /**
   * The state a render may show while `fetchJournals` waits for the token:
   * the flags it set on entry, and the cached list if it published one.
   */
  function ViewAtTokenRead(journals: seq<Journal>, items: map<string, string>, forceRefresh: bool): View
  {
    var cached := CachedJournals(items);
    if !forceRefresh && |cached| > 0 then View(cached, false, false)
    else View(journals, !forceRefresh, forceRefresh)
  }

  /** The outcome of one fetch: the new list, the new storage, and whether the list request was issued. */
  datatype Settled = Settled(journals: seq<Journal>, items: map<string, string>, requested: bool)

  /**
   * The end state of `fetchJournals` from storage `items`: with a token the
   * list is requested; an answer replaces the list and is persisted; no
   * token, or a failed request, re-reads the cache.
   */
  function Settle(items: map<string, string>, response: ListResponse): Settled
  {
    if AuthToken(items).None? then Settled(CachedJournals(items), items, false)
    else
      match response
      case Listed(fetched) => Settled(fetched, WithCache(items, fetched), true)
      case RequestFailed => Settled(CachedJournals(items), items, true)
  }

  class JournalProvider {
    var journals: seq<Journal>
    var loading: bool
    var refreshing: bool
    const store: KeyValueStore
    /** The states a render has been able to observe, oldest first. */
    ghost var views: seq<View>

    constructor (store: KeyValueStore)
      ensures journals == [] && loading && !refreshing
      ensures this.store == store && views == []
    {
      journals := [];
      loading := true;
      refreshing := false;
      this.store := store;
      views := [];
    }

    method LoadJournalsFromStorage() returns (js: seq<Journal>)
      ensures js == CachedJournals(store.items)
    {
      var cached := store.GetItem(CachedJournalsKey);
      js := [];
      if Truthy(cached) {
        var parsed := Parse(cached.value);
        if parsed.Some? {
          js := parsed.value;
        }
      }
    }

    method SaveJournalsToStorage(js: seq<Journal>)
      modifies store
      ensures store.items == WithCache(old(store.items), js)
    {
      store.SetItem(CachedJournalsKey, Serialize(js));
    }

    /** `fetchJournals(forceRefresh)`, with `response` the backend's answer if it is asked. */
    method FetchJournals(forceRefresh: bool, response: ListResponse) returns (requested: bool)
      modifies this, store
      ensures var s := Settle(old(store.items), response);
              journals == s.journals && store.items == s.items && requested == s.requested
      ensures !loading && !refreshing
      ensures views == old(views) + [ViewAtTokenRead(old(journals), old(store.items), forceRefresh),
                                     View(journals, false, false)]
    {
      loading := !forceRefresh;
      refreshing := forceRefresh;

      if !forceRefresh {
        var cached := LoadJournalsFromStorage();
        if |cached| > 0 {
          journals := cached;
          loading := false;
        }
      }

      views := views + [View(journals, loading, refreshing)];
      var token := store.GetItem(AuthTokenKey);
      requested := Truthy(token);
      var failed := true;
      if requested {
        match response {
          case Listed(fetched) =>
            journals := fetched;
            SaveJournalsToStorage(fetched);
            failed := false;
          case RequestFailed =>
        }
      }
      if failed {
        var cached := LoadJournalsFromStorage();
        journals := cached;
      }

      loading := false;
      refreshing := false;
      views := views + [View(journals, loading, refreshing)];
    }

    /** `refreshJournals`: a forced fetch. */
    method RefreshJournals(response: ListResponse) returns (requested: bool)
      modifies this, store
      ensures var s := Settle(old(store.items), response);
              journals == s.journals && store.items == s.items && requested == s.requested
      ensures !loading && !refreshing
      ensures views == old(views) + [ViewAtTokenRead(old(journals), old(store.items), true),
                                     View(journals, false, false)]
    {
      requested := FetchJournals(true, response);
    }

    /**
     * The mount effect: publish a non-empty cache (a render shows it with
     * the flags as they were), then fetch without forcing.
     */
    method Mount(response: ListResponse) returns (requested: bool)
      modifies this, store
      ensures var s := Settle(old(store.items), response);
              journals == s.journals && store.items == s.items && requested == s.requested
      ensures !loading && !refreshing
      ensures var cached := CachedJournals(old(store.items));
              var published := if |cached| > 0 then cached else old(journals);
              views == old(views) + [View(published, old(loading), old(refreshing)),
                                     ViewAtTokenRead(old(journals), old(store.items), false),
                                     View(journals, false, false)]
    {
      var cached := LoadJournalsFromStorage();
      if |cached| > 0 {
        journals := cached;
      }
      views := views + [View(journals, loading, refreshing)];
      requested := FetchJournals(false, response);
    }
  }

  // ------------------------------------------------------------- lemmas

  /** A fetch issues the list request exactly when a token is stored. */
  lemma RequestIffToken(items: map<string, string>, response: ListResponse)
    ensures Settle(items, response).requested <==> AuthTokenKey in items && items[AuthTokenKey] != ""
  {
  }

  /**
   * A successful fetch replaces the list by exactly the fetched one, with
   * no trace of the previous list, and a later load of the cache (a restart)
   * reads the same list back.
   */
  lemma SuccessReplacesAndPersists(items: map<string, string>, fetched: seq<Journal>)
    requires AuthToken(items).Some?
    ensures var s := Settle(items, Listed(fetched));
            s.journals == fetched && s.requested && CachedJournals(s.items) == fetched
    ensures Settle(items, Listed(fetched)).items[AuthTokenKey] == items[AuthTokenKey]
  {
  }

  /** Without a token no request is issued, nothing is written, and the list becomes the cache. */
  lemma NoTokenTakesFailurePath(items: map<string, string>, response: ListResponse)
    requires AuthToken(items).None?
    ensures Settle(items, response) == Settled(CachedJournals(items), items, false)
  {
  }

  /**
   * Storage is written only by a successful fetch; every other fetch sets
   * the list to whatever the cache decodes to.
   */
  lemma OnlySuccessWrites(items: map<string, string>, response: ListResponse)
    ensures var s := Settle(items, response);
            s.items != items ==> s.requested && response.Listed?
    ensures !(AuthToken(items).Some? && response.Listed?) ==>
              Settle(items, response).items == items &&
              Settle(items, response).journals == CachedJournals(items)
  {
  }

  /** A failed fetch over a cache that holds `js` shows exactly `js`. */
  lemma FailureServesPersistedList(items: map<string, string>, js: seq<Journal>)
    requires CachedJournalsKey in items && items[CachedJournalsKey] == Serialize(js)
    ensures Settle(items, RequestFailed).journals == js
    ensures Settle(items, RequestFailed).items == items
  {
    ParseOfSerialize(js);
  }

  /** After a successful fetch, a later failed fetch falls back to the list of that successful fetch. */
  lemma FailureAfterSuccessServesLastFetched(items: map<string, string>, fetched: seq<Journal>)
    requires AuthToken(items).Some?
    ensures Settle(Settle(items, Listed(fetched)).items, RequestFailed).journals == fetched
  {
  }

  /**
   * After a successful fetch, a fetch once the token is removed issues no
   * request and shows the list of that successful fetch, whatever the
   * backend would have answered.
   */
  lemma SignedOutAfterSuccessServesLastFetched(items: map<string, string>, fetched: seq<Journal>,
                                               later: ListResponse)
    requires AuthToken(items).Some?
    ensures var signedOut := Settle(items, Listed(fetched)).items - {AuthTokenKey};
            Settle(signedOut, later) == Settled(fetched, signedOut, false)
  {
  }

  /** Of two successful fetches, the later one alone decides the list and the cache. */
  lemma LastSuccessWins(items: map<string, string>, first: seq<Journal>, second: seq<Journal>)
    requires AuthToken(items).Some?
    ensures var s := Settle(Settle(items, Listed(first)).items, Listed(second));
            s.journals == second && CachedJournals(s.items) == second
  {
  }

  /** Entering a fetch: `loading` is set unless forced, `refreshing` only when forced; a non-empty cache is shown first. */
  lemma EntryFlags(journals: seq<Journal>, items: map<string, string>, forceRefresh: bool)
    ensures var v := ViewAtTokenRead(journals, items, forceRefresh);
            v.refreshing == forceRefresh &&
            (forceRefresh ==> v == View(journals, false, true)) &&
            (!forceRefresh && |CachedJournals(items)| > 0 ==> v == View(CachedJournals(items), false, false)) &&
            (!forceRefresh && CachedJournals(items) == [] ==> v == View(journals, true, false))
  {
  }

  /** Scenario: no cache and no token leaves the list empty and issues no request. */
  lemma NoCacheNoTokenIsEmpty(response: ListResponse)
    ensures Settle(map[], response) == Settled([], map[], false)
  {
  }
}
