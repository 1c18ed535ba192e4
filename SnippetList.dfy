/**
 * The snippet list page of src/components/snippet/SnippetListClient.tsx.
 *
 * What the page shows is computed from the snippets it was given and two
 * pieces of state: the search text and the chosen tag. `AllTagsOf` is the
 * tag drop-down (`allTags`), `Filtered` is the list of cards (`filtered`).
 * The third piece of state, the set of ids whose delete is in flight, is
 * what `handleDelete` changes step by step; it lives in the
 * `SnippetListView` class together with the other two.
 */
module SnippetList {
  import opened JsText
  import opened Optional
  import TagCodec
  import opened Actions

  /** `JSON.parse(s.tags || "[]")`, with a parse failure read as no tags. */
  function TagsOf(s: Snippet): (r: seq<JsString>)
    ensures s.tags == [] ==> r == []
    ensures TagCodec.ParseArray(s.tags).None? ==> r == []
  {
    TagCodec.DecodeTags(s.tags)
  }

  /** `snippets.flatMap(...)`: the decoded tag lists, one after another. */
  function FlatTags(snippets: seq<Snippet>): (r: seq<JsString>)
    ensures forall t :: t in r <==> exists s :: s in snippets && t in TagsOf(s)
  {
    if snippets == [] then [] else TagsOf(snippets[0]) + FlatTags(snippets[1..])
  }

  /** No value occurs twice in `xs`. */
  predicate NoDuplicates<T(==)>(xs: seq<T>) {
    forall i, j :: 0 <= i < j < |xs| ==> xs[i] != xs[j]
  }

  /** The position of the first occurrence of `t` in `xs`. */
  function FirstIndex<T(==)>(xs: seq<T>, t: T): (k: nat)
    requires t in xs
    ensures k < |xs| && xs[k] == t
    ensures forall i :: 0 <= i < k ==> xs[i] != t
  {
    if xs[0] == t then 0 else 1 + FirstIndex(xs[1..], t)
  }

  /** The values of `r` come in the order of their first occurrence in `xs`. */
  predicate InFirstOccurrenceOrder<T(==)>(r: seq<T>, xs: seq<T>)
    requires forall i :: 0 <= i < |r| ==> r[i] in xs
  {
    forall i, j :: 0 <= i < j < |r| ==> FirstIndex(xs, r[i]) < FirstIndex(xs, r[j])
  }

  /**
   * `Array.from(new Set(...))` started from a set that already holds
   * `seen`: the values of `xs` not in `seen`, each once, in the order in
   * which the set first met them.
   */
  function Dedup<T(==,!new)>(xs: seq<T>, seen: set<T>): (r: seq<T>)
    ensures forall t :: t in r <==> t in xs && t !in seen
    ensures NoDuplicates(r)
    ensures InFirstOccurrenceOrder(r, xs)
  {
    if xs == [] then []
    else if xs[0] in seen then
      FirstIndexTail(xs, Dedup(xs[1..], seen));
      Dedup(xs[1..], seen)
    else
      var rest := Dedup(xs[1..], seen + {xs[0]});
      FirstIndexTail(xs, rest);
      [xs[0]] + rest
  }

  /**
   * Values that do not start `xs` sit one place further on in `xs` than in
   * its tail, so the tail's first-occurrence order is that of `xs`.
   */
  lemma FirstIndexTail<T>(xs: seq<T>, r: seq<T>)
    requires xs != []
    requires forall i :: 0 <= i < |r| ==> r[i] in xs[1..] && r[i] != xs[0]
    requires InFirstOccurrenceOrder(r, xs[1..])
    ensures forall i :: 0 <= i < |r| ==> FirstIndex(xs, r[i]) == 1 + FirstIndex(xs[1..], r[i])
    ensures InFirstOccurrenceOrder(r, xs)
  {
  }

  /**
   * `allTags`: every tag that some snippet carries, once each, in the order
   * in which the snippets first mention them.
   */
  function AllTagsOf(snippets: seq<Snippet>): (r: seq<JsString>)
    ensures forall t :: t in r <==> t in FlatTags(snippets)
    ensures NoDuplicates(r)
    ensures InFirstOccurrenceOrder(r, FlatTags(snippets))
  {
    Dedup(FlatTags(snippets), {})
  }

  /**
   * The search box: an empty search matches every snippet; otherwise the
   * search text, lower-cased, must occur in the lower-cased title or in the
   * lower-cased code.
   */
  predicate MatchesSearch(s: Snippet, search: JsString)
    ensures MatchesSearch(s, search) <==>
              || search == []
              || (exists i :: OccursAt(ToLower(s.title), ToLower(search), i))
              || (exists i :: OccursAt(ToLower(s.code), ToLower(search), i))
  {
    || search == []
    || Includes(ToLower(s.title), ToLower(search))
    || Includes(ToLower(s.code), ToLower(search))
  }

  /** The tag drop-down: no tag chosen, or the chosen tag is one of the snippet's tags. */
  predicate MatchesTag(s: Snippet, tagFilter: JsString)
    ensures tagFilter == [] ==> MatchesTag(s, tagFilter)
    ensures tagFilter != [] && s.tags == [] ==> !MatchesTag(s, tagFilter)
  {
    tagFilter == [] || tagFilter in TagsOf(s)
  }

  /**
   * A snippet gets a card when it passes both the search and the tag
   * filter; each filter can be applied on its own.
   */
  predicate IsShown(s: Snippet, search: JsString, tagFilter: JsString)
    ensures search == [] && tagFilter == [] ==> IsShown(s, search, tagFilter)
    ensures search == [] ==> (IsShown(s, search, tagFilter) <==> MatchesTag(s, tagFilter))
    ensures tagFilter == [] ==> (IsShown(s, search, tagFilter) <==> MatchesSearch(s, search))
  {
    MatchesSearch(s, search) && MatchesTag(s, tagFilter)
  }

  /** `a` is `b` with some elements left out, the rest kept in order. */
  predicate IsSubsequence<T(==)>(a: seq<T>, b: seq<T>)
    decreases |b|
  {
    || a == []
    || (b != [] &&
        ((a[0] == b[0] && IsSubsequence(a[1..], b[1..])) || IsSubsequence(a, b[1..])))
  }

  /** `filtered`: the snippets that pass both filters, in their original order. */
  function Filtered(snippets: seq<Snippet>, search: JsString, tagFilter: JsString): (r: seq<Snippet>)
    ensures forall s :: s in r <==> s in snippets && IsShown(s, search, tagFilter)
    ensures IsSubsequence(r, snippets)
    ensures forall s :: multiset(r)[s] == if IsShown(s, search, tagFilter) then multiset(snippets)[s] else 0
  {
    if snippets == [] then []
    else
      assert snippets == [snippets[0]] + snippets[1..];
      if IsShown(snippets[0], search, tagFilter) then
        [snippets[0]] + Filtered(snippets[1..], search, tagFilter)
      else
        Filtered(snippets[1..], search, tagFilter)
  }

  /** With an empty search and no tag chosen, every snippet is listed. */
  lemma {:induction false} NoFilterShowsAll(snippets: seq<Snippet>)
    ensures Filtered(snippets, [], []) == snippets
  {
    if snippets != [] {
      NoFilterShowsAll(snippets[1..]);
      assert [snippets[0]] + snippets[1..] == snippets;
    }
  }

  /** Filtering what is already filtered, by the same search and tag, changes nothing. */
  lemma {:induction false} FilteredIdempotent(snippets: seq<Snippet>, search: JsString, tagFilter: JsString)
    ensures Filtered(Filtered(snippets, search, tagFilter), search, tagFilter) == Filtered(snippets, search, tagFilter)
  {
    if snippets != [] {
      FilteredIdempotent(snippets[1..], search, tagFilter);
      var rest := Filtered(snippets[1..], search, tagFilter);
      if IsShown(snippets[0], search, tagFilter) {
        assert ([snippets[0]] + rest)[1..] == rest;
      }
    }
  }

  /** The two filters are independent: searching, then filtering by tag, gives the same list. */
  lemma {:induction false} FiltersCompose(snippets: seq<Snippet>, search: JsString, tagFilter: JsString)
    ensures Filtered(Filtered(snippets, search, []), [], tagFilter) == Filtered(snippets, search, tagFilter)
  {
    if snippets != [] {
      FiltersCompose(snippets[1..], search, tagFilter);
      var rest := Filtered(snippets[1..], search, []);
      if IsShown(snippets[0], search, []) {
        assert ([snippets[0]] + rest)[1..] == rest;
      }
    }
  }

  /** ASCII lower-casing is idempotent. */
  lemma ToLowerIdempotent(s: JsString)
    ensures ToLower(ToLower(s)) == ToLower(s)
  {
  }

  /** The search ignores letter case: the search text and its lower-cased form select the same snippets. */
  lemma SearchIgnoresCase(s: Snippet, search: JsString)
    ensures MatchesSearch(s, search) <==> MatchesSearch(s, ToLower(search))
  {
    ToLowerIdempotent(search);
  }

  /** With the search box empty, every option of the tag drop-down selects at least one snippet. */
  lemma TagOptionSelectsSome(snippets: seq<Snippet>, t: JsString)
    requires t in AllTagsOf(snippets)
    ensures Filtered(snippets, [], t) != []
  {
    var s :| s in snippets && t in TagsOf(s);
    assert IsShown(s, [], t);
  }

  /**
   * A snippet whose tags were stored with `JSON.stringify(tags)` offers each
   * of those tags in the drop-down, and, with the search box empty,
   * choosing one of them lists it.
   */
  lemma StoredTagSelects(snippets: seq<Snippet>, s: Snippet, tags: seq<JsString>, t: JsString)
    requires s in snippets && s.tags == TagCodec.EncodeTags(tags) && t in tags
    ensures t in AllTagsOf(snippets)
    ensures s in Filtered(snippets, [], t)
  {
    TagCodec.DecodeEncodeTags(tags);
    assert TagsOf(s) == tags;
    assert IsShown(s, [], t);
  }

  /** The notice shown when the call to the delete action rejects. */
  const DeleteFailedNotice: string := "Failed to delete snippet. Please try again."

  /**
   * The alert `handleDelete` raises once the server call is over: the
   * returned message when it is not empty, the fixed notice when the call
   * rejects, and nothing on a redirect or an empty message.
   */
  function AlertFor(outcome: ActionOutcome): (r: Option<string>)
    ensures r.Some? <==> outcome.Threw? || (outcome.Returned? && outcome.message != "")
    ensures r.Some? ==> r.value != ""
    ensures outcome.Returned? && r.Some? ==> r.value == outcome.message
  {
    match outcome
    case Returned(message) => if message != "" then Some(message) else None
    case Redirected(_) => None
    case Threw => Some(DeleteFailedNotice)
  }

  /** The state of one snippet list page. */
  class SnippetListView {
    /** The snippets the page was rendered with. */
    const snippets: seq<Snippet>
    /** The text in the search box. */
    var search: JsString
    /** The chosen tag, empty for "All Tags". */
    var tagFilter: JsString
    /** The snippets whose delete is under way; their delete buttons are disabled. */
    var deletingIds: set<int>

    constructor (snippets: seq<Snippet>)
      ensures this.snippets == snippets
      ensures search == [] && tagFilter == [] && deletingIds == {}
    {
      this.snippets := snippets;
      search := [];
      tagFilter := [];
      deletingIds := {};
    }

    /** The snippets that get a card. */
    function Shown(): (r: seq<Snippet>)
      reads this
      ensures forall s :: s in r <==> s in snippets && IsShown(s, search, tagFilter)
      ensures search == [] && tagFilter == [] ==> r == snippets
    {
      NoFilterShowsAll(snippets);
      Filtered(snippets, search, tagFilter)
    }

    /** The delete button of snippet `id` is disabled while its delete is under way. */
    predicate DeleteDisabled(id: int)
      reads this
    {
      id in deletingIds
    }

    /** Typing into the search box. */
    method SetSearch(text: JsString)
      modifies this`search
      ensures search == text
      ensures Shown() == Filtered(snippets, text, tagFilter)
    {
      search := text;
    }

    /** Choosing an entry of the tag drop-down. */
    method SetTagFilter(tag: JsString)
      modifies this`tagFilter
      ensures tagFilter == tag
      ensures Shown() == Filtered(snippets, search, tag)
    {
      tagFilter := tag;
    }

    /**
     * The start of `handleDelete`: when the user declines the confirmation
     * nothing changes and the server is not called; otherwise the id is
     * marked as being deleted before the server is called.
     */
    method RequestDelete(id: int, confirmed: bool) returns (callsServer: bool)
      modifies this`deletingIds
      ensures callsServer == confirmed
      ensures confirmed ==> deletingIds == old(deletingIds) + {id}
      ensures !confirmed ==> deletingIds == old(deletingIds)
    {
      if !confirmed {
        return false;
      }
      deletingIds := deletingIds + {id};
      callsServer := true;
    }

    /**
     * The end of `handleDelete`, once the server call is over: when an
     * alert is raised (a message came back, or the call rejected) the id is
     * no longer marked; after a redirect, or an empty message, it stays
     * marked.
     */
    method SettleDelete(id: int, outcome: ActionOutcome) returns (alert: Option<string>)
      modifies this`deletingIds
      ensures alert == AlertFor(outcome)
      ensures outcome.Redirected? ==> alert.None?
      ensures outcome.Threw? ==> alert == Some(DeleteFailedNotice)
      ensures alert.Some? ==> deletingIds == old(deletingIds) - {id}
      ensures alert.None? ==> deletingIds == old(deletingIds)
    {
      alert := AlertFor(outcome);
      if alert.Some? {
        deletingIds := deletingIds - {id};
      }
    }

    /**
     * `handleDelete(id)` against the server's `deleteSnippet`. `pending` is
     * the set of marked ids at the moment the server is called.
     */
    method HandleDelete(id: int, confirmed: bool, store: SnippetStore)
      returns (alert: Option<string>, ghost pending: set<int>)
      requires store.Valid()
      modifies this`deletingIds, store`rows
      ensures store.Valid()
      ensures !confirmed ==>
                alert.None? && deletingIds == old(deletingIds) && store.rows == old(store.rows)
      ensures confirmed ==> pending == old(deletingIds) + {id}
      ensures confirmed && id in old(store.rows) ==>
                alert.None? && store.rows == old(store.rows) - {id} &&
                deletingIds == old(deletingIds) + {id} && DeleteDisabled(id)
      ensures confirmed && id !in old(store.rows) ==>
                alert == Some(DeleteFailedNotice) && store.rows == old(store.rows) &&
                deletingIds == old(deletingIds) - {id} && !DeleteDisabled(id)
    {
      pending := deletingIds;
      var callsServer := RequestDelete(id, confirmed);
      if !callsServer {
        return None, pending;
      }
      pending := deletingIds;
      var outcome := store.DeleteSnippet(id);
      alert := SettleDelete(id, outcome);
    }

    /**
     * A click on the delete button of snippet `id`: a disabled button
     * ignores the click; an enabled one runs `handleDelete`. A delete that
     * fails puts the page back exactly as it was before the click.
     */
    method PressDelete(id: int, confirmed: bool, store: SnippetStore) returns (alert: Option<string>)
      requires store.Valid()
      modifies this`deletingIds, store`rows
      ensures store.Valid()
      ensures old(DeleteDisabled(id)) || !confirmed ==>
                alert.None? && deletingIds == old(deletingIds) && store.rows == old(store.rows)
      ensures !old(DeleteDisabled(id)) && confirmed && id in old(store.rows) ==>
                alert.None? && store.rows == old(store.rows) - {id} &&
                deletingIds == old(deletingIds) + {id}
      ensures !old(DeleteDisabled(id)) && confirmed && id !in old(store.rows) ==>
                alert == Some(DeleteFailedNotice) && store.rows == old(store.rows) &&
                deletingIds == old(deletingIds)
    {
      if DeleteDisabled(id) {
        return None;
      }
      ghost var pending;
      alert, pending := HandleDelete(id, confirmed, store);
    }
  }
}
