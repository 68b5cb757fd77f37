/**
 * `JSONGenreReader::loadFromJSON` (import/genre_json_parser.cpp): reads a
 * JSON array of genre objects and saves each acceptable one into the genre
 * table, returning the genres saved.
 */
module GenreJsonReader {
  import opened Wrappers
  import opened Json
  import opened Imports
  import opened GenreModel
  import opened GenreRepo

  /**
   * What the loop body makes of one array item: `Stop` when the item lacks
   * "Name" or "Description" (this throws past the loop), `Skip` when
   * `get<std::string>` or the constructor throws (caught, the loop goes
   * on), otherwise the genre to save.
   */
  datatype Outcome = Stop | Skip | Candidate(genre: Genre)

  /** The item is an object with both required keys. Any other value has no such keys (or throws on `key()`). */
  predicate HasRequiredKeys(item: Json) {
    item.JObject? && "Name" in item.members && "Description" in item.members
  }

  function OutcomeOf(item: Json): (r: Outcome)
    ensures r.Stop? <==> !HasRequiredKeys(item)
    ensures r.Candidate? <==>
      && HasRequiredKeys(item)
      && item.members["Name"].JString? && item.members["Description"].JString?
      && item.members["Name"].s != ""
    ensures r.Candidate? ==> r.genre == Genre(-1, item.members["Name"].s, item.members["Description"].s)
  {
    if !HasRequiredKeys(item) then Stop
    else
      var name := item.members["Name"];
      var description := item.members["Description"];
      if !name.JString? || !description.JString? then Skip
      else
        match NewGenre(name.s, description.s)
        case Failure(_) => Skip
        case Success(g) => Candidate(g)
  }

  /** The genre an item yields, if any, for `Collect`. */
  function ItemGenre(item: Json): Option<Genre> {
    match OutcomeOf(item)
    case Candidate(g) => Some(g)
    case _ => None
  }

  /** The index of the first item that stops the loop, or the number of items when none does. */
  function StopIndex(items: seq<Json>): (n: nat)
    ensures n <= |items|
    ensures n < |items| ==> OutcomeOf(items[n]).Stop?
    ensures forall j :: 0 <= j < n ==> !OutcomeOf(items[j]).Stop?
  {
    if items == [] then 0
    else if OutcomeOf(items[0]).Stop? then 0
    else 1 + StopIndex(items[1..])
  }

  /**
   * The genres `loadFromJSON` returns for a document (`None`: the file
   * cannot be opened or parsed) and a table with `rows` and counter
   * `nextId`: nothing unless the document is an array; otherwise the genres
   * the items before the first stopping item yield, as `save` accepts them.
   */
  function Loaded(rows: seq<Genre>, nextId: int, doc: Option<Json>): seq<Genre> {
    if doc.None? || !doc.value.JArray? then []
    else
      var items := doc.value.items;
      SaveMany(rows, nextId, Collect(items[..StopIndex(items)], ItemGenre), GenreExists, WithGenreId)
  }

  /**
   * The reader's loop. Every returned genre is also appended to the table,
   * and the table changes in no other way.
   */
  method LoadFromJson(doc: Option<Json>, repo: GenreRepository) returns (genres: seq<Genre>)
    requires repo.Valid()
    modifies repo
    ensures repo.Valid()
    ensures genres == Loaded(old(repo.rows), old(repo.nextId), doc)
    ensures repo.rows == old(repo.rows) + genres && repo.nextId == old(repo.nextId) + |genres|
  {
    genres := [];
    if doc.None? || !doc.value.JArray? {
      return;
    }
    genres := SaveItems(doc.value.items, repo);
  }

  /** The loop over the items: it ends at the first stopping item, and offers every candidate to `save`. */
  method SaveItems(items: seq<Json>, repo: GenreRepository) returns (genres: seq<Genre>)
    requires repo.Valid()
    modifies repo
    ensures repo.Valid()
    ensures genres == SaveMany(old(repo.rows), old(repo.nextId), Collect(items[..StopIndex(items)], ItemGenre), GenreExists, WithGenreId)
    ensures repo.rows == old(repo.rows) + genres && repo.nextId == old(repo.nextId) + |genres|
  {
    genres := [];
    ghost var rows0, next0 := repo.rows, repo.nextId;
    ghost var cands: seq<Genre> := [];
    var i := 0;
    while i < |items|
      invariant 0 <= i <= StopIndex(items)
      invariant repo.Valid()
      invariant cands == Collect(items[..i], ItemGenre)
      invariant genres == SaveMany(rows0, next0, cands, GenreExists, WithGenreId)
      invariant repo.rows == rows0 + genres && repo.nextId == next0 + |genres|
      decreases |items| - i
    {
      var outcome := OutcomeOf(items[i]);
      if outcome.Stop? {
        break;
      }
      CollectStep(items, i, ItemGenre);
      if outcome.Candidate? {
        genres := SaveAndKeep(outcome.genre, repo, genres, rows0, next0, cands);
        cands := cands + [outcome.genre];
      }
      i := i + 1;
    }
    assert i == StopIndex(items);
  }

  /**
   * The result holds at most one genre per item, in item order: every item
   * read before the stop whose title is not already in the table or saved
   * before it is saved, under the next free id, and every other one is refused.
   */
  lemma LoadedFacts(rows: seq<Genre>, nextId: int, items: seq<Json>)
    ensures |Loaded(rows, nextId, Some(JArray(items)))| <= |items|
    ensures var cands := Collect(items[..StopIndex(items)], ItemGenre);
      SavedInOrder(rows, nextId, cands, Loaded(rows, nextId, Some(JArray(items))), GenreExists, WithGenreId,
                   SavedIndices(rows, nextId, cands, GenreExists, WithGenreId))
  {
    SaveManyFacts(rows, nextId, Collect(items[..StopIndex(items)], ItemGenre), GenreExists, WithGenreId);
  }

  /**
   * Processing stops at the first item without both keys: whatever follows
   * it is never read, however valid.
   */
  lemma ItemsAfterStopIgnored(rows: seq<Genre>, nextId: int, items: seq<Json>, more: seq<Json>)
    requires StopIndex(items) < |items|
    ensures Loaded(rows, nextId, Some(JArray(items + more))) == Loaded(rows, nextId, Some(JArray(items)))
  {
    var n := StopIndex(items);
    StopIndexPrefix(items, more);
    assert (items + more)[..n] == items[..n];
  }

  /** Appending items does not move a stop that is already there. */
  lemma {:induction false} StopIndexPrefix(items: seq<Json>, more: seq<Json>)
    requires StopIndex(items) < |items|
    ensures StopIndex(items + more) == StopIndex(items)
  {
    if !OutcomeOf(items[0]).Stop? {
      assert (items + more)[1..] == items[1..] + more;
      StopIndexPrefix(items[1..], more);
    }
  }

  /**
   * An item that is skipped does not stop the loop: with no stopping item,
   * every item is read, and the items with a bad type or an empty name
   * simply contribute nothing.
   */
  lemma {:induction false} NoStopReadsAll(items: seq<Json>)
    requires forall j :: 0 <= j < |items| ==> HasRequiredKeys(items[j])
    ensures StopIndex(items) == |items|
  {
    if items != [] {
      NoStopReadsAll(items[1..]);
    }
  }

  /**
   * A file written by the genre JSON export cannot be read back: its
   * objects carry "ID", "title" and "description", not "Name", so the first
   * item stops the loop.
   */
  lemma ExportedJsonLoadsNothing(rows: seq<Genre>, nextId: int, exported: seq<Genre>)
    ensures Loaded(rows, nextId, Some(GenreJsonDoc(exported))) == []
  {
    var items := GenreJsonDoc(exported).items;
    if items != [] {
      assert "Name" !in items[0].members by {
        ExportedKeys(exported[0]);
      }
      assert StopIndex(items) == 0;
    }
    assert items[..StopIndex(items)] == [];
  }

  lemma ExportedKeys(g: Genre)
    ensures GenreJson(g).JObject? && "Name" !in GenreJson(g).members
  {
    var keys := GenreJson(g).members.Keys;
    forall k | k in keys ensures k != "Name" {
      assert k[0] != "Name"[0];
    }
  }
}
