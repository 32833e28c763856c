/** Notes as the server hands them out, and the three list transformations
    the App handlers apply to the local copy: keep-by-predicate (the
    `filter` behind the search view and the delete), replace-by-id (the
    edit's `map`) and append (the create). */
module Notes {

  /** `{_id, title, content}`; `_id` is the server's opaque identifier. */
  datatype Note = Note(id: string, title: string, content: string)

  /** What an HTTP request resolved to: the response's `data`, or a
      thrown error (transport failure or a non-success status). */
  datatype Reply<T> = Success(data: T) | Failure

  datatype Option<T> = None | Some(value: T)

  /** The JSON body `{title, content}` of a create or an update. */
  datatype Draft = Draft(title: string, content: string)

  /** The four calls to the notes service: GET, POST, PUT and DELETE on
      `/api/notes`, the last two on `/api/notes/{id}`. */
  datatype Request = List | Create(body: Draft) | Update(id: string, body: Draft) | Delete(id: string)

  /** No two notes in `s` share an `_id`. */
  ghost predicate UniqueIds(s: seq<Note>) {
    forall i, j :: 0 <= i < |s| && 0 <= j < |s| && s[i].id == s[j].id ==> i == j
  }

  ghost predicate HasId(s: seq<Note>, id: string) {
    exists i :: 0 <= i < |s| && s[i].id == id
  }

  /** `a` is `b` with some elements dropped and the rest in their order. */
  ghost predicate IsSubseq(a: seq<Note>, b: seq<Note>)
    decreases |b|
  {
    a == [] || (b != [] && ((a[0] == b[0] && IsSubseq(a[1..], b[1..])) || IsSubseq(a, b[1..])))
  }

  /** `s.filter(keep)`: the notes of `s` that satisfy `keep`, in order. */
  function Select(s: seq<Note>, keep: Note -> bool): (r: seq<Note>)
    ensures |r| <= |s|
    ensures forall i :: 0 <= i < |r| ==> keep(r[i])
  {
    if s == [] then []
    else if keep(s[0]) then [s[0]] + Select(s[1..], keep)
    else Select(s[1..], keep)
  }

  /** Each note survives `Select` exactly as many times as it occurs in the
      input when it satisfies `keep`, and not at all otherwise. */
  lemma {:induction false} SelectCount(s: seq<Note>, keep: Note -> bool, x: Note)
    ensures multiset(Select(s, keep))[x] == if keep(x) then multiset(s)[x] else 0
  {
    if s != [] {
      SelectCount(s[1..], keep, x);
      assert s == [s[0]] + s[1..];
    }
  }

  /** `Select` keeps the surviving notes in their original relative order. */
  lemma {:induction false} SelectSubseq(s: seq<Note>, keep: Note -> bool)
    ensures IsSubseq(Select(s, keep), s)
  {
    if s != [] {
      SelectSubseq(s[1..], keep);
      if keep(s[0]) {
        assert Select(s, keep)[1..] == Select(s[1..], keep);
      }
    }
  }

  /** A `Select` whose predicate holds of every note changes nothing. */
  lemma {:induction false} SelectAll(s: seq<Note>, keep: Note -> bool)
    requires forall i :: 0 <= i < |s| ==> keep(s[i])
    ensures Select(s, keep) == s
  {
    if s != [] {
      SelectAll(s[1..], keep);
      assert s == [s[0]] + s[1..];
    }
  }

  /** `Select` cannot duplicate an `_id` since it only drops notes. */
  lemma {:induction false} SelectKeepsUnique(s: seq<Note>, keep: Note -> bool)
    requires UniqueIds(s)
    ensures UniqueIds(Select(s, keep))
  {
    if s != [] {
      SelectKeepsUnique(s[1..], keep);
      if keep(s[0]) {
        var r := Select(s[1..], keep);
        forall k | 0 <= k < |r| ensures r[k].id != s[0].id {
          SelectCount(s[1..], keep, r[k]);
          assert r[k] in multiset(r);
          assert r[k] in s[1..];
        }
      }
    }
  }

  /** Taking the note at `k` out of a list of unique ids leaves a list of
      unique ids, none of them the removed note's. */
  lemma RemoveAtUnique(a: seq<Note>, k: int)
    requires UniqueIds(a) && 0 <= k < |a|
    ensures multiset(a[..k] + a[k + 1..]) == multiset(a) - multiset{a[k]}
    ensures UniqueIds(a[..k] + a[k + 1..])
    ensures forall n :: n in a[..k] + a[k + 1..] ==> n.id != a[k].id
  {
    var rest := a[..k] + a[k + 1..];
    assert a == a[..k] + [a[k]] + a[k + 1..];
    forall i | 0 <= i < |rest| ensures rest[i] == a[if i < k then i else i + 1] && rest[i].id != a[k].id {
    }
  }

  /** A note whose id the rest of the list lacks may head a list of unique
      ids. */
  lemma ConsUnique(b: seq<Note>)
    requires b != [] && UniqueIds(b[1..])
    requires forall n :: n in b[1..] ==> n.id != b[0].id
    ensures UniqueIds(b)
  {
    forall i | 1 <= i < |b| ensures b[i] == b[1..][i - 1] && b[i].id != b[0].id {
    }
  }

  /** Reordering cannot duplicate an `_id`: a list with the same notes,
      each as often, as a list of unique ids has unique ids itself. */
  lemma {:induction false} PermutationKeepsUnique(a: seq<Note>, b: seq<Note>)
    requires multiset(a) == multiset(b)
    requires UniqueIds(a)
    ensures UniqueIds(b)
    decreases |b|
  {
    if b != [] {
      assert b == [b[0]] + b[1..];
      assert b[0] in multiset(a);
      var k :| 0 <= k < |a| && a[k] == b[0];
      var rest := a[..k] + a[k + 1..];
      RemoveAtUnique(a, k);
      assert multiset(rest) == multiset(b[1..]);
      PermutationKeepsUnique(rest, b[1..]);
      forall n | n in b[1..] ensures n.id != b[0].id {
        assert n in multiset(b[1..]);
        assert n in rest;
      }
      ConsUnique(b);
    }
  }

  /** The note test behind the delete: `note._id !== id`. */
  function OtherId(id: string): Note -> bool {
    (n: Note) => n.id != id
  }

  /** `notes.filter(note => note._id !== id)`: no longer than `s`, and no
      note left carries `id`. */
  function RemoveById(s: seq<Note>, id: string): (r: seq<Note>)
    ensures |r| <= |s|
    ensures forall i :: 0 <= i < |r| ==> r[i].id != id
  {
    Select(s, OtherId(id))
  }

  /** Removing by id drops every note carrying `id`, keeps every other note
      with its multiplicity and in order, and is the identity when no note
      carries `id`. */
  lemma RemoveByIdSpec(s: seq<Note>, id: string)
    ensures forall n :: n in RemoveById(s, id) ==> n.id != id
    ensures forall x :: multiset(RemoveById(s, id))[x] == if x.id == id then 0 else multiset(s)[x]
    ensures IsSubseq(RemoveById(s, id), s)
    ensures !HasId(s, id) ==> RemoveById(s, id) == s
    ensures UniqueIds(s) ==> UniqueIds(RemoveById(s, id))
  {
    forall x ensures multiset(RemoveById(s, id))[x] == if x.id == id then 0 else multiset(s)[x] {
      SelectCount(s, OtherId(id), x);
    }
    SelectSubseq(s, OtherId(id));
    if !HasId(s, id) {
      SelectAll(s, OtherId(id));
    }
    if UniqueIds(s) {
      SelectKeepsUnique(s, OtherId(id));
    }
  }

  /** `notes.map(note => (note._id === id ? reply : note))` */
  function ReplaceById(s: seq<Note>, id: string, reply: Note): (r: seq<Note>)
    ensures |r| == |s|
  {
    if s == [] then []
    else [if s[0].id == id then reply else s[0]] + ReplaceById(s[1..], id, reply)
  }

  /** Every position whose note carries `id` holds `reply` afterwards, and
      every other position is untouched. */
  lemma {:induction false} ReplaceByIdAt(s: seq<Note>, id: string, reply: Note, i: int)
    requires 0 <= i < |s|
    ensures ReplaceById(s, id, reply)[i] == if s[i].id == id then reply else s[i]
  {
    if i > 0 {
      ReplaceByIdAt(s[1..], id, reply, i - 1);
    }
  }

  /** An edit whose `id` is absent leaves the list as it was; an edit whose
      reply keeps the edited `_id` keeps the ids unique. */
  lemma ReplaceByIdSpec(s: seq<Note>, id: string, reply: Note)
    ensures !HasId(s, id) ==> ReplaceById(s, id, reply) == s
    ensures UniqueIds(s) && reply.id == id ==> UniqueIds(ReplaceById(s, id, reply))
  {
    var r := ReplaceById(s, id, reply);
    forall i | 0 <= i < |s| ensures r[i] == if s[i].id == id then reply else s[i] {
      ReplaceByIdAt(s, id, reply, i);
    }
    if UniqueIds(s) && reply.id == id {
      assert forall i :: 0 <= i < |s| ==> r[i].id == s[i].id;
    }
  }

  /** `[...notes, reply]` keeps the ids unique exactly when the server's new
      note carries an id not already in the list. */
  lemma AppendUnique(s: seq<Note>, n: Note)
    ensures UniqueIds(s + [n]) <==> UniqueIds(s) && !HasId(s, n.id)
  {
    var r := s + [n];
    if UniqueIds(r) {
      forall i | 0 <= i < |s| ensures s[i].id != n.id {
        assert r[i] == s[i] && r[|s|] == n;
      }
      forall i, j | 0 <= i < |s| && 0 <= j < |s| && s[i].id == s[j].id ensures i == j {
        assert r[i] == s[i] && r[j] == s[j];
      }
    }
  }
}
