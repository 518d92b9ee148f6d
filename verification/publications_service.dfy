/**
 * The in-memory record store: an ordered sequence of publications and the
 * next id to hand out. Every operation is a pure function from the store
 * before to the store after; a thrown NotFound is a `Failure`.
 */
module PublicationsService {
  import opened Wrappers
  import opened Text
  import opened Exceptions
  import opened CreatePublicationDto

  /** A stored record; `year` is `None` when the creator gave none. */
  datatype Publication = Publication(id: int, title: string, author: string, year: Option<int>, createdBy: string)

  datatype Store = Store(publications: seq<Publication>, nextId: int)

  /** A partial update: `None` marks a field left undefined. */
  datatype UpdatePublicationFields = UpdatePublicationFields(title: Option<string>, author: Option<string>, year: Option<int>)

  /** The store when the service is constructed: no records, first id 1. */
  const Empty := Store([], 1)

  /** Ids appear in strictly increasing order along the sequence, hence at most once. */
  predicate IdsIncreasing(ps: seq<Publication>) {
    forall i, j :: 0 <= i < j < |ps| ==> ps[i].id < ps[j].id
  }

  /** The store invariant: ids are positive, below `nextId` and strictly increasing. */
  predicate Valid(s: Store) {
    && s.nextId >= 1
    && (forall i :: 0 <= i < |s.publications| ==> 1 <= s.publications[i].id < s.nextId)
    && IdsIncreasing(s.publications)
  }

  predicate Contains(ps: seq<Publication>, id: int) {
    exists i :: 0 <= i < |ps| && ps[i].id == id
  }

  function NotFoundFor(id: int): Exception {
    NotFound("Publication with id " + IntText(id) + " not found")
  }

  /** The records whose author is exactly `author`, in store order. */
  function ByAuthor(ps: seq<Publication>, author: string): (r: seq<Publication>)
    ensures forall p :: p in r <==> p in ps && p.author == author
    ensures |r| <= |ps|
    ensures IdsIncreasing(ps) ==> IdsIncreasing(r)
    decreases |ps|
  {
    if |ps| == 0 then []
    else
      var rest := ByAuthor(ps[1..], author);
      assert forall p :: p in ps[1..] ==> p in ps;
      if ps[0].author == author then
        assert IdsIncreasing(ps) ==> forall p :: p in rest ==> ps[0].id < p.id;
        [ps[0]] + rest
      else rest
  }

  /**
   * `findAll`: a truthy author filters by exact equality; an absent or
   * empty author (both falsy) returns the whole store.
   */
  function FindAll(s: Store, author: Option<string>): (r: seq<Publication>)
    ensures (author.None? || author.value == "") ==> r == s.publications
    ensures author.Some? && author.value != "" ==>
      forall p :: p in r <==> p in s.publications && p.author == author.value
    ensures Valid(s) ==> IdsIncreasing(r)
  {
    if author.Some? && author.value != "" then ByAuthor(s.publications, author.value)
    else s.publications
  }

  /** `findIndex`: the position of the first record with `id`, or -1. */
  function IndexOf(ps: seq<Publication>, id: int): (r: int)
    ensures -1 <= r < |ps|
    ensures r == -1 <==> !Contains(ps, id)
    ensures r >= 0 ==> ps[r].id == id && forall k :: 0 <= k < r ==> ps[k].id != id
    decreases |ps|
  {
    if |ps| == 0 then -1
    else if ps[0].id == id then 0
    else
      var k := IndexOf(ps[1..], id);
      assert forall i :: 0 < i < |ps| ==> ps[1..][i - 1] == ps[i];
      if k == -1 then -1 else k + 1
  }

  /** In a store with increasing ids a record with `id` sits at `IndexOf` and nowhere else. */
  lemma IndexOfUnique(ps: seq<Publication>, id: int, j: int)
    requires IdsIncreasing(ps)
    requires 0 <= j < |ps| && ps[j].id == id
    ensures IndexOf(ps, id) == j
  {
  }

  /** `findOne`: the record with `id`, or NotFound. */
  function FindOne(s: Store, id: int): (r: Result<Publication, Exception>)
    ensures r.Success? <==> Contains(s.publications, id)
    ensures r.Success? ==> r.value in s.publications && r.value.id == id
    ensures r.Failure? ==> r.error == NotFoundFor(id)
  {
    var i := IndexOf(s.publications, id);
    if i == -1 then Failure(NotFoundFor(id)) else Success(s.publications[i])
  }

  /**
   * `create`: the record takes the current `nextId`, the counter moves on by
   * one, the fields are copied and the record goes at the end.
   */
  function Create(s: Store, dto: NewPublication, userId: string): (r: (Store, Publication))
    ensures r.1.id == s.nextId && r.1.createdBy == userId
    ensures r.1.title == dto.title && r.1.author == dto.author && r.1.year == dto.year
    ensures r.0.publications == s.publications + [r.1]
    ensures r.0.nextId == s.nextId + 1
  {
    var p := Publication(s.nextId, dto.title, dto.author, dto.year, userId);
    (Store(s.publications + [p], s.nextId + 1), p)
  }

  /** The record after a partial update: each defined field replaces the stored one. */
  function Patch(p: Publication, dto: UpdatePublicationFields): (q: Publication)
    ensures q.id == p.id && q.createdBy == p.createdBy
    ensures q.title == (if dto.title.Some? then dto.title.value else p.title)
    ensures q.author == (if dto.author.Some? then dto.author.value else p.author)
    ensures q.year == (if dto.year.Some? then dto.year else p.year)
  {
    p.(title := dto.title.GetOr(p.title),
       author := dto.author.GetOr(p.author),
       year := if dto.year.Some? then dto.year else p.year)
  }

  /**
   * `update`: NotFound when `id` is absent; otherwise the first record with
   * `id` is patched in place and returned, everything else untouched.
   */
  function Update(s: Store, id: int, dto: UpdatePublicationFields): (r: Result<(Store, Publication), Exception>)
    ensures r.Failure? <==> !Contains(s.publications, id)
    ensures r.Failure? ==> r.error == NotFoundFor(id)
    ensures r.Success? ==>
      var i := IndexOf(s.publications, id);
      && r.value.0.nextId == s.nextId
      && |r.value.0.publications| == |s.publications|
      && r.value.0.publications[i] == r.value.1
      && r.value.1 == Patch(s.publications[i], dto)
      && (forall k :: 0 <= k < |s.publications| && k != i ==>
            r.value.0.publications[k] == s.publications[k])
  {
    match FindOne(s, id)
    case Failure(e) => Failure(e)
    case Success(_) =>
      var i := IndexOf(s.publications, id);
      var q := Patch(s.publications[i], dto);
      Success((Store(s.publications[i := q], s.nextId), q))
  }

  /**
   * `remove`: NotFound when `id` is absent; otherwise the first record with
   * `id` is spliced out, the rest keep their order, and `nextId` is untouched.
   */
  function Remove(s: Store, id: int): (r: Result<Store, Exception>)
    ensures r.Failure? <==> !Contains(s.publications, id)
    ensures r.Failure? ==> r.error == NotFoundFor(id)
    ensures r.Success? ==>
      var i := IndexOf(s.publications, id);
      && r.value.nextId == s.nextId
      && r.value.publications == s.publications[..i] + s.publications[i + 1..]
  {
    var i := IndexOf(s.publications, id);
    if i == -1 then Failure(NotFoundFor(id))
    else Success(Store(s.publications[..i] + s.publications[i + 1..], s.nextId))
  }

  lemma EmptyIsValid()
    ensures Valid(Empty)
  {
  }

  /** Creating keeps the invariant: the new id exceeds every stored id. */
  lemma CreatePreservesValid(s: Store, dto: NewPublication, userId: string)
    requires Valid(s)
    ensures Valid(Create(s, dto, userId).0)
  {
  }

  /** Updating keeps the invariant: ids are never touched. */
  lemma UpdatePreservesValid(s: Store, id: int, dto: UpdatePublicationFields)
    requires Valid(s)
    ensures Update(s, id, dto).Success? ==> Valid(Update(s, id, dto).value.0)
  {
  }

  /** Removing keeps the invariant: a subsequence of increasing ids is increasing. */
  lemma RemovePreservesValid(s: Store, id: int)
    requires Valid(s)
    ensures Remove(s, id).Success? ==> Valid(Remove(s, id).value)
  {
    var r := Remove(s, id);
    if r.Success? {
      var i := IndexOf(s.publications, id);
      var ps := s.publications;
      var qs := r.value.publications;
      assert forall k :: 0 <= k < |qs| ==> qs[k] == (if k < i then ps[k] else ps[k + 1]);
    }
  }

  /** After a create, `findOne` of the new id returns exactly the created record. */
  lemma FindOneAfterCreate(s: Store, dto: NewPublication, userId: string)
    requires Valid(s)
    ensures var (s', p) := Create(s, dto, userId);
      FindOne(s', p.id) == Success(p) && p.createdBy == userId
  {
    var (s', p) := Create(s, dto, userId);
    IndexOfUnique(s'.publications, p.id, |s.publications|);
  }

  /** After a successful remove, `findOne` of the removed id fails with NotFound. */
  lemma FindOneAfterRemove(s: Store, id: int)
    requires Valid(s)
    ensures Remove(s, id).Success? ==> FindOne(Remove(s, id).value, id) == Failure(NotFoundFor(id))
  {
    var r := Remove(s, id);
    if r.Success? {
      var i := IndexOf(s.publications, id);
      var ps := s.publications;
      var qs := r.value.publications;
      forall k | 0 <= k < |qs|
        ensures qs[k].id != id
      {
        if k < i { assert qs[k] == ps[k]; } else { assert qs[k] == ps[k + 1]; }
      }
    }
  }

  /** After an update, `findOne` returns the patched record. */
  lemma FindOneAfterUpdate(s: Store, id: int, dto: UpdatePublicationFields)
    requires Valid(s)
    ensures Update(s, id, dto).Success? ==>
      FindOne(Update(s, id, dto).value.0, id) == Success(Update(s, id, dto).value.1)
  {
    var r := Update(s, id, dto);
    if r.Success? {
      UpdatePreservesValid(s, id, dto);
      IndexOfUnique(r.value.0.publications, id, IndexOf(s.publications, id));
    }
  }

  /** One step of the store's life: a call to `create`, `update` or `remove`. */
  datatype Operation =
    | CreateOp(dto: NewPublication, userId: string)
    | UpdateOp(id: int, changes: UpdatePublicationFields)
    | RemoveOp(id: int)

  /** The store after one operation; a call that throws leaves it as it was. */
  function Apply(s: Store, op: Operation): (s': Store)
    ensures s'.nextId == (if op.CreateOp? then s.nextId + 1 else s.nextId)
    ensures op.CreateOp? ==>
      s'.publications == s.publications
        + [Publication(s.nextId, op.dto.title, op.dto.author, op.dto.year, op.userId)]
    ensures !op.CreateOp? && !Contains(s.publications, op.id) ==> s' == s
    ensures op.UpdateOp? && Contains(s.publications, op.id) ==>
      var i := IndexOf(s.publications, op.id);
      && |s'.publications| == |s.publications|
      && s'.publications[i] == Patch(s.publications[i], op.changes)
      && (forall k :: 0 <= k < |s.publications| && k != i ==> s'.publications[k] == s.publications[k])
    ensures op.RemoveOp? && Contains(s.publications, op.id) ==>
      var i := IndexOf(s.publications, op.id);
      s'.publications == s.publications[..i] + s.publications[i + 1..]
  {
    match op
    case CreateOp(dto, userId) => Create(s, dto, userId).0
    case UpdateOp(id, changes) =>
      (match Update(s, id, changes)
       case Success((t, _)) => t
       case Failure(_) => s)
    case RemoveOp(id) =>
      match Remove(s, id)
      case Success(t) => t
      case Failure(_) => s
  }

  /** The store after a sequence of operations. */
  function Run(s: Store, ops: seq<Operation>): Store
    decreases |ops|
  {
    if |ops| == 0 then s else Run(Apply(s, ops[0]), ops[1..])
  }

  /** The ids the creates among `ops` hand out, in order. */
  function Issued(s: Store, ops: seq<Operation>): seq<int>
    decreases |ops|
  {
    if |ops| == 0 then []
    else
      var head := if ops[0].CreateOp? then [s.nextId] else [];
      head + Issued(Apply(s, ops[0]), ops[1..])
  }

  predicate StrictlyIncreasing(xs: seq<int>) {
    forall i, j :: 0 <= i < j < |xs| ==> xs[i] < xs[j]
  }

  /** Every element lies in `[lo, hi)`. */
  predicate WithinRange(xs: seq<int>, lo: int, hi: int) {
    forall i :: 0 <= i < |xs| ==> lo <= xs[i] < hi
  }

  /** Every operation keeps the invariant, so any run from a valid store ends valid. */
  lemma {:induction false} RunPreservesValid(s: Store, ops: seq<Operation>)
    requires Valid(s)
    ensures Valid(Run(s, ops))
    decreases |ops|
  {
    if |ops| > 0 {
      match ops[0] {
        case CreateOp(dto, userId) => CreatePreservesValid(s, dto, userId);
        case UpdateOp(id, changes) => UpdatePreservesValid(s, id, changes);
        case RemoveOp(id) => RemovePreservesValid(s, id);
      }
      RunPreservesValid(Apply(s, ops[0]), ops[1..]);
    }
  }

  /**
   * Ids are never reused: whatever is removed in between, the ids handed out
   * along a run strictly increase, start at the current `nextId` (above every
   * stored id of a valid store) and stay below the final `nextId`.
   */
  lemma {:induction false} IssuedIdsIncrease(s: Store, ops: seq<Operation>)
    ensures StrictlyIncreasing(Issued(s, ops))
    ensures WithinRange(Issued(s, ops), s.nextId, Run(s, ops).nextId)
    decreases |ops|
  {
    if |ops| == 0 {
    } else {
      var t := Apply(s, ops[0]);
      IssuedIdsIncrease(t, ops[1..]);
      RunNextIdGrows(t, ops[1..]);
      var rest := Issued(t, ops[1..]);
      var ids := Issued(s, ops);
      assert Run(s, ops) == Run(t, ops[1..]);
      if ops[0].CreateOp? {
        assert ids == [s.nextId] + rest;
        assert t.nextId == s.nextId + 1;
        assert forall i :: 1 <= i < |ids| ==> ids[i] == rest[i - 1];
      } else {
        assert ids == rest;
        assert t.nextId == s.nextId;
      }
    }
  }

  /** `nextId` never decreases along a run. */
  lemma {:induction false} RunNextIdGrows(s: Store, ops: seq<Operation>)
    ensures Run(s, ops).nextId >= s.nextId
    decreases |ops|
  {
    if |ops| > 0 {
      RunNextIdGrows(Apply(s, ops[0]), ops[1..]);
    }
  }

  /** No id handed out along a run from a valid store clashes with a record already stored. */
  lemma IssuedIdsAreFresh(s: Store, ops: seq<Operation>)
    requires Valid(s)
    ensures forall i, k :: 0 <= i < |Issued(s, ops)| && 0 <= k < |s.publications| ==>
      Issued(s, ops)[i] != s.publications[k].id
  {
    IssuedIdsIncrease(s, ops);
  }
}
