/** Values that travel between the coordinator and its clients: the poll, the
    per-option counts and the history entries, shared by the server model and
    by the dashboards. */
module PollTypes {

  datatype Option<+T> = None | Some(value: T)

  /** A connection handle, as chosen by the transport. */
  type SocketId = string

  /** The identity a student types in on the join screen. */
  type StudentId = string

  /** A wall-clock reading; the model never looks inside it. */
  type Timestamp = int

  /** The poll object the server builds on `create-poll` and sends to clients. */
  datatype Poll = Poll(question: string, options: seq<string>, timeLimit: int, createdAt: Timestamp)

  /** One `{option, count}` entry of a result list. */
  datatype OptionCount = OptionCount(option: string, count: nat)

  /** One concluded poll as appended to the history. */
  datatype HistoryEntry = HistoryEntry(
    question: string,
    options: seq<string>,
    results: seq<OptionCount>,
    createdAt: Timestamp,
    endedAt: Timestamp)

  /** A roster line as shown to the teacher; some events include the id, some do not. */
  datatype StudentSummary = StudentSummary(name: string, studentId: Option<StudentId>, answered: bool)

  /** `results.reduce((sum, result) => sum + result.count, 0)`: every count is bounded by
      the total, and the total is zero exactly when every count is. */
  function TotalVotes(results: seq<OptionCount>): (n: nat)
    ensures forall i :: 0 <= i < |results| ==> results[i].count <= n
    ensures n == 0 <==> forall i :: 0 <= i < |results| ==> results[i].count == 0
  {
    if results == [] then 0
    else
      var init := results[..|results| - 1];
      assert forall i :: 0 <= i < |init| ==> init[i] == results[i];
      TotalVotes(init) + results[|results| - 1].count
  }

  /** The total of a concatenation is the sum of the totals. */
  lemma {:induction false} TotalVotesAppend(a: seq<OptionCount>, b: seq<OptionCount>)
    ensures TotalVotes(a + b) == TotalVotes(a) + TotalVotes(b)
    decreases |b|
  {
    if b == [] {
      assert a + b == a;
    } else {
      var last := |b| - 1;
      assert (a + b)[..|a + b| - 1] == a + b[..last];
      TotalVotesAppend(a, b[..last]);
    }
  }
}
