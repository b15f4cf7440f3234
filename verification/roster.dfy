/** The server's `students` Map (studentId -> record). A JavaScript Map keeps its
    keys in insertion order, and that order is visible: it is the order of the
    roster lists the server emits and the order in which the `disconnect` and
    `send-message` handlers search for a socket. It is therefore modelled as a
    sequence of records whose `studentId`s are pairwise distinct; `Put` replaces a
    record in place when its key is present and appends it otherwise, as
    `Map.prototype.set` does. */
module Roster {
  import opened PollTypes

  /** One entry of the `students` Map; the key is the record's own `studentId`. */
  datatype Student = Student(
    name: string,
    studentId: StudentId,
    socketId: SocketId,
    answered: bool,
    submittedPaper: bool,
    answerIndex: Option<int>)

  /** No key occurs twice. */
  predicate KeysDistinct(r: seq<Student>)
  {
    forall i, j :: 0 <= i < j < |r| ==> r[i].studentId != r[j].studentId
  }

  predicate HasKey(r: seq<Student>, id: StudentId)
  {
    exists i :: 0 <= i < |r| && r[i].studentId == id
  }

  /** Position of the first record with key `id`, or -1 (`students.get`). */
  function IndexOf(r: seq<Student>, id: StudentId): (k: int)
    ensures -1 <= k < |r|
    ensures k >= 0 ==> r[k].studentId == id
    ensures k >= 0 ==> forall j :: 0 <= j < k ==> r[j].studentId != id
    ensures k < 0 <==> !HasKey(r, id)
  {
    if r == [] then -1
    else if r[0].studentId == id then 0
    else
      var k := IndexOf(r[1..], id);
      assert forall j :: 1 <= j < |r| ==> r[j] == r[1..][j - 1];
      if k < 0 then -1 else k + 1
  }

  /** `students.get(id)`: the record under `id`, if any. */
  function Get(r: seq<Student>, id: StudentId): (o: Option<Student>)
    ensures o.Some? <==> HasKey(r, id)
    ensures o.Some? ==> o.value.studentId == id && o.value in r
  {
    var k := IndexOf(r, id);
    if k < 0 then None else Some(r[k])
  }

  /** `students.set(rec.studentId, rec)`: replace in place or append. */
  function Put(r: seq<Student>, rec: Student): (r': seq<Student>)
    requires KeysDistinct(r)
    ensures KeysDistinct(r')
    ensures Get(r', rec.studentId) == Some(rec)
    ensures forall id :: id != rec.studentId ==> Get(r', id) == Get(r, id)
    ensures |r'| == if HasKey(r, rec.studentId) then |r| else |r| + 1
    ensures HasKey(r, rec.studentId) ==> r' == r[IndexOf(r, rec.studentId) := rec]
    ensures !HasKey(r, rec.studentId) ==> r' == r + [rec]
  {
    var k := IndexOf(r, rec.studentId);
    if k >= 0 then
      var r' := r[k := rec];
      assert forall id :: id != rec.studentId ==> IndexOf(r', id) == IndexOf(r, id) by {
        forall id | id != rec.studentId ensures IndexOf(r', id) == IndexOf(r, id) {
          IndexOfUpdate(r, k, rec, id);
        }
      }
      IndexOfDistinct(r', k);
      r'
    else
      var r' := r + [rec];
      assert forall id :: id != rec.studentId ==> IndexOf(r', id) == IndexOf(r, id) by {
        forall id | id != rec.studentId ensures IndexOf(r', id) == IndexOf(r, id) {
          IndexOfAppend(r, rec, id);
        }
      }
      IndexOfDistinct(r', |r|);
      r'
  }

  /** The sequence without its `k`-th record. */
  function RemoveAt(r: seq<Student>, k: nat): (r': seq<Student>)
    requires k < |r|
    ensures |r'| == |r| - 1
    ensures forall j :: 0 <= j < k ==> r'[j] == r[j]
    ensures forall j :: k <= j < |r'| ==> r'[j] == r[j + 1]
  {
    r[..k] + r[k + 1..]
  }

  /** `students.delete(id)`: drop the record under `id`, if any; the others keep their order. */
  function Delete(r: seq<Student>, id: StudentId): (r': seq<Student>)
    requires KeysDistinct(r)
    ensures KeysDistinct(r')
    ensures !HasKey(r', id)
    ensures forall other :: other != id ==> Get(r', other) == Get(r, other)
    ensures |r'| == if HasKey(r, id) then |r| - 1 else |r|
    ensures HasKey(r, id) ==> r' == RemoveAt(r, IndexOf(r, id))
    ensures !HasKey(r, id) ==> r' == r
  {
    var k := IndexOf(r, id);
    if k < 0 then r
    else
      RemoveAtKeys(r, k);
      RemoveAt(r, k)
  }

  /** Removing one record of a keyed sequence removes exactly its key. */
  lemma RemoveAtKeys(r: seq<Student>, k: nat)
    requires KeysDistinct(r) && k < |r|
    ensures KeysDistinct(RemoveAt(r, k))
    ensures !HasKey(RemoveAt(r, k), r[k].studentId)
    ensures forall other :: other != r[k].studentId ==> Get(RemoveAt(r, k), other) == Get(r, other)
  {
    var r' := RemoveAt(r, k);
    forall other | other != r[k].studentId ensures Get(r', other) == Get(r, other) {
      var a, b := IndexOf(r', other), IndexOf(r, other);
      if b >= 0 {
        assert b != k;
        if b < k {
          assert r'[b].studentId == other;
          IndexOfFirst(r', other, b);
        } else {
          assert r'[b - 1] == r[b];
          IndexOfFirst(r', other, b - 1);
          assert r'[a] == r[b];
        }
      }
    }
  }

  /** In a keyed sequence, the record at `k` is found at `k`. */
  lemma IndexOfDistinct(r: seq<Student>, k: nat)
    requires KeysDistinct(r) && k < |r|
    ensures IndexOf(r, r[k].studentId) == k
  {
    IndexOfFirst(r, r[k].studentId, k);
  }

  /** A position holding `id` before which `id` does not occur is what `IndexOf` finds. */
  lemma IndexOfFirst(r: seq<Student>, id: StudentId, k: nat)
    requires k < |r| && r[k].studentId == id
    requires forall j :: 0 <= j < k ==> r[j].studentId != id
    ensures IndexOf(r, id) == k
  {
    var i := IndexOf(r, id);
    assert i >= 0;
    assert !(i < k) && !(k < i);
  }

  /** Writing a record whose key is `r[k]`'s leaves every other key's position alone. */
  lemma IndexOfUpdate(r: seq<Student>, k: nat, rec: Student, id: StudentId)
    requires k < |r| && r[k].studentId == rec.studentId && id != rec.studentId
    ensures IndexOf(r[k := rec], id) == IndexOf(r, id)
  {
    var r' := r[k := rec];
    var a, b := IndexOf(r', id), IndexOf(r, id);
    if b >= 0 {
      IndexOfFirst(r', id, b);
    }
  }

  /** Appending a record with another key leaves `id`'s position alone. */
  lemma IndexOfAppend(r: seq<Student>, rec: Student, id: StudentId)
    requires id != rec.studentId
    ensures IndexOf(r + [rec], id) == IndexOf(r, id)
  {
    var r' := r + [rec];
    var a, b := IndexOf(r', id), IndexOf(r, id);
    if b >= 0 {
      IndexOfFirst(r', id, b);
    }
  }

  /** Rewriting records without touching their keys moves no key. */
  lemma IndexOfSameKeys(r: seq<Student>, r': seq<Student>, id: StudentId)
    requires |r| == |r'|
    requires forall i :: 0 <= i < |r| ==> r'[i].studentId == r[i].studentId
    ensures IndexOf(r', id) == IndexOf(r, id)
  {
    var b := IndexOf(r, id);
    if b >= 0 {
      IndexOfFirst(r', id, b);
    }
  }

  /** Position of the first record bound to `socket` (the `for..of` search with `break`), or -1. */
  function FirstBySocket(r: seq<Student>, socket: SocketId): (k: int)
    ensures -1 <= k < |r|
    ensures k >= 0 ==> r[k].socketId == socket
    ensures k >= 0 ==> forall j :: 0 <= j < k ==> r[j].socketId != socket
    ensures k < 0 ==> forall j :: 0 <= j < |r| ==> r[j].socketId != socket
  {
    if r == [] then -1
    else if r[0].socketId == socket then 0
    else
      var k := FirstBySocket(r[1..], socket);
      assert forall j :: 1 <= j < |r| ==> r[j] == r[1..][j - 1];
      if k < 0 then -1 else k + 1
  }

  /** Number of records with `answered` set (`filter(s => s.answered).length`). */
  function AnsweredCount(r: seq<Student>): (n: nat)
    ensures n <= |r|
  {
    if r == [] then 0 else AnsweredCount(r[..|r| - 1]) + (if r[|r| - 1].answered then 1 else 0)
  }

  /** `every(s => s.answered)` */
  predicate AllAnswered(r: seq<Student>)
  {
    forall i :: 0 <= i < |r| ==> r[i].answered
  }

  /** Counting the answered records and comparing with the size is the same as `every`. */
  lemma {:induction false} AnsweredCountFull(r: seq<Student>)
    ensures AnsweredCount(r) == |r| <==> AllAnswered(r)
  {
    if r != [] {
      var init := r[..|r| - 1];
      AnsweredCountFull(init);
      assert forall i :: 0 <= i < |init| ==> init[i] == r[i];
    }
  }
}
