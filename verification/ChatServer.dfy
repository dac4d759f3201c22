// The chat server's parent: a table of users with one child process each, and
// the map from process numbers back to the table.

module ChatServer {

  const USER_LIMIT: nat := 3
  const PROCESS_LIMIT: nat := 65536

  /** A user's child process and the descriptor of the connection it serves. */
  datatype Client = Client(pid: int, connfd: int)

  /** The users that are in the table. */
  function Present(users: seq<Client>): set<Client> { set u | u in users }

  /** No two entries for one process. */
  ghost predicate DistinctPids(users: seq<Client>) {
    forall i, j | 0 <= i < j < |users| :: users[i].pid != users[j].pid
  }

  /** Each user's process leads back to the user's entry. */
  ghost predicate Indexed(users: seq<Client>, subProcess: seq<int>) {
    forall i | 0 <= i < |users| ::
      0 < users[i].pid < |subProcess| && subProcess[users[i].pid] == i
  }

  // ---------- the table as values ----------

  /** Entry i is filled with the last one, and the last one is given up. */
  function SwapRemove(users: seq<Client>, i: nat): (r: seq<Client>)
    requires i < |users|
    ensures |r| == |users| - 1
  {
    users[i := users[|users| - 1]][..|users| - 1]
  }

  /**
   * What a child's exit does to the map.  The moved entry's process is pointed
   * at its new place; if nothing was moved that is the exited process itself,
   * which keeps a stale entry.
   */
  function Unmap(users: seq<Client>, subProcess: seq<int>, i: nat): (r: seq<int>)
    requires i < |users| && 0 <= users[i].pid < |subProcess|
    requires 0 <= users[|users| - 1].pid < |subProcess|
    ensures |r| == |subProcess|
  {
    subProcess[users[i].pid := -1][users[|users| - 1].pid := i]
  }

  /** Removal takes away exactly the one user, and the others keep what they had. */
  lemma {:induction false} RemovesOneUser(users: seq<Client>, i: nat)
    requires i < |users| && DistinctPids(users)
    ensures Present(SwapRemove(users, i)) == Present(users) - {users[i]}
    ensures DistinctPids(SwapRemove(users, i))
  {
    var r, n := SwapRemove(users, i), |users| - 1;
    forall u ensures u in r <==> u in users && u != users[i] {
      if u in r {
        var k :| 0 <= k < |r| && r[k] == u;
        assert u == users[if k == i then n else k];
      }
      if u in users && u != users[i] {
        var k :| 0 <= k < |users| && users[k] == u;
        assert r[if k == n then i else k] == u;
      }
    }
  }

  lemma {:induction false} RemovalKeepsIndex(users: seq<Client>, subProcess: seq<int>, i: nat)
    requires i < |users| && DistinctPids(users) && Indexed(users, subProcess)
    ensures Indexed(SwapRemove(users, i), Unmap(users, subProcess, i))
  {
    var r, n := SwapRemove(users, i), |users| - 1;
    assert users[n].pid > 0;
    forall k | 0 <= k < |r|
      ensures 0 < r[k].pid < |subProcess| && Unmap(users, subProcess, i)[r[k].pid] == k
    {
      assert r[k] == users[if k == i then n else k];
    }
  }

  /**
   * The exited process is forgotten exactly if its user was not the last one:
   * the last entry is moved onto itself, and the map points back at it.
   */
  lemma {:induction false} ForgottenUnlessLast(users: seq<Client>, subProcess: seq<int>, i: nat)
    requires i < |users| && DistinctPids(users) && Indexed(users, subProcess)
    ensures 0 < users[i].pid < |subProcess| && 0 < users[|users| - 1].pid < |subProcess|
    ensures Unmap(users, subProcess, i)[users[i].pid] == -1 <==> i != |users| - 1
  {
    assert users[|users| - 1].pid > 0;
  }

  // ---------- the object ----------

  /**
   * What becomes of a connection.  OutOfMap is not a case of the source: it
   * marks the store into sub_process that falls outside it, which a process
   * number of PROCESS_LIMIT or more leads to.
   */
  datatype Outcome = Refused | ForkFailed | Served | OutOfMap

  class Server {
    const users: array<Client>
    const subProcess: array<int>
    var userCounter: nat
    var terminate: bool
    var stopServer: bool

    ghost predicate Valid()
      reads this, users, subProcess
    {
      && users.Length == USER_LIMIT + 1 && subProcess.Length == PROCESS_LIMIT
      && userCounter <= USER_LIMIT
      && DistinctPids(Users()) && Indexed(Users(), subProcess[..])
    }

    ghost function Users(): seq<Client>
      requires userCounter <= users.Length
      reads this, users
    {
      users[..userCounter]
    }

    constructor ()
      ensures Valid() && Users() == [] && !terminate && !stopServer
      ensures fresh(users) && fresh(subProcess) && forall pid | 0 <= pid < PROCESS_LIMIT :: subProcess[pid] == -1
    {
      users := new Client[USER_LIMIT + 1](_ => Client(0, 0));
      subProcess := new int[PROCESS_LIMIT](_ => -1);
      userCounter, terminate, stopServer := 0, false, false;
    }

    /**
     * A connection was accepted.  pid is what fork returns to the parent:
     * negative if it fails, otherwise a process that is not running already.
     */
    method Accept(connfd: int, pid: int) returns (outcome: Outcome)
      requires Valid() && pid != 0 && forall u | u in Users() :: u.pid != pid
      modifies this`userCounter, users, subProcess
      ensures Valid()
      ensures outcome == if old(userCounter) == USER_LIMIT then Refused else if pid < 0 then ForkFailed
                         else if pid < PROCESS_LIMIT then Served else OutOfMap
      ensures Users() == if outcome == Served then old(Users()) + [Client(pid, connfd)] else old(Users())
      ensures subProcess[..] == if outcome == Served then old(subProcess[..])[pid := old(userCounter)]
                                else old(subProcess[..])
    {
      ghost var before := Users();
      if userCounter >= USER_LIMIT {
        return Refused;
      }
      users[userCounter] := users[userCounter].(connfd := connfd);
      assert users[..userCounter] == before;
      if pid < 0 {
        return ForkFailed;
      }
      users[userCounter] := users[userCounter].(pid := pid);
      if pid >= PROCESS_LIMIT {
        assert users[..userCounter] == before;
        return OutOfMap;
      }
      subProcess[pid] := userCounter;
      userCounter := userCounter + 1;
      assert Users() == before + [Client(pid, connfd)];
      forall i | 0 <= i < |Users()| ensures subProcess[..][Users()[i].pid] == i {
        assert i < |before| ==> Users()[i] == before[i] && before[i] in before;
      }
      return Served;
    }

    /** waitpid has reported the exit of a user's process. */
    method ChildExit(pid: int, ghost i: nat)
      requires Valid() && i < userCounter && users[i].pid == pid
      modifies this`userCounter, users, subProcess
      ensures Valid()
      ensures Users() == SwapRemove(old(Users()), i)
      ensures subProcess[..] == Unmap(old(Users()), old(subProcess[..]), i)
      ensures Present(Users()) == Present(old(Users())) - {old(Users())[i]}
    {
      ghost var before, index := Users(), subProcess[..];
      assert before[i].pid == pid;
      RemovesOneUser(before, i);
      RemovalKeepsIndex(before, index, i);
      assert before[userCounter - 1].pid > 0;
      var delUser := subProcess[pid];
      subProcess[pid] := -1;
      if delUser < 0 || delUser > USER_LIMIT {
        assert false;
      }
      userCounter := userCounter - 1;
      users[delUser] := users[userCounter];
      subProcess[users[delUser].pid] := delUser;
      assert Users() == SwapRemove(before, i);
      assert subProcess[..] == Unmap(before, index, i);
    }

    /** The end of the SIGCHLD case. */
    method AfterExits()
      requires Valid()
      modifies this`stopServer
      ensures Valid() && stopServer == (old(stopServer) || (terminate && userCounter == 0))
      ensures stopServer && !old(stopServer) ==> Users() == []
    {
      if terminate && userCounter == 0 {
        stopServer := true;
      }
    }

    /**
     * SIGTERM, which falls through, and SIGINT: killed lists the processes
     * that are sent a signal.
     */
    method Interrupt() returns (killed: seq<int>)
      requires Valid()
      modifies this`stopServer, this`terminate
      ensures Valid()
      ensures stopServer == (old(stopServer) || userCounter == 0)
      ensures stopServer && !old(stopServer) ==> Users() == []
      ensures terminate == (old(terminate) || userCounter > 0)
      ensures |killed| == userCounter && forall i | 0 <= i < userCounter :: killed[i] == users[i].pid
    {
      killed := [];
      if userCounter == 0 {
        stopServer := true;
        return;
      }
      for i := 0 to userCounter
        invariant |killed| == i && forall k | 0 <= k < i :: killed[k] == users[k].pid
      {
        killed := killed + [users[i].pid];
      }
      terminate := true;
    }
  }
}
