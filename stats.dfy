/** The shared statistics registry: `ProgStats` (shared.h) and `AdminStats`
    (admin.h). Each mutex-protected region of the C code is one method here,
    so any interleaving of workers is a sequence of these calls. */
module Stats {

  /** Process-wide count of connected users. The ghost set `live` names the
      worker sessions that have incremented the count and not yet decremented it. */
  class ProgStats {
    var currentUsers: int
    ghost var live: set<nat>

    ghost predicate Valid()
      reads this
    {
      currentUsers == |live|
    }

    /** `init_prog_stats`: the registry starts zeroed. */
    constructor Init()
      ensures Valid() && currentUsers == 0 && live == {}
    {
      currentUsers := 0;
      live := {};
    }

    /** `currentUsers++` under `currentUsersLock`, as a worker starts. */
    method IncrementUsers(ghost session: nat)
      requires Valid() && session !in live
      modifies this
      ensures Valid()
      ensures currentUsers == old(currentUsers) + 1
      ensures live == old(live) + {session}
    {
      currentUsers := currentUsers + 1;
      live := live + {session};
    }

    /** `currentUsers--` under `currentUsersLock`, as a worker finishes. */
    method DecrementUsers(ghost session: nat)
      requires Valid() && session in live
      modifies this
      ensures Valid()
      ensures currentUsers == old(currentUsers) - 1
      ensures live == old(live) - {session}
    {
      currentUsers := currentUsers - 1;
      live := live - {session};
    }

    /** Reading `currentUsers` under `currentUsersLock`. */
    method SnapshotUsers() returns (n: int)
      requires Valid()
      ensures n == currentUsers && n >= 0
    {
      n := currentUsers;
    }
  }

  /** Admin ids handed out so far are exactly 1, 2, ..., in order. */
  ghost predicate IdsFromOne(ids: seq<int>)
  {
    forall i :: 0 <= i < |ids| ==> ids[i] == i + 1
  }

  /** Such ids are positive and strictly increasing, hence pairwise distinct. */
  lemma IdsDistinct(ids: seq<int>)
    requires IdsFromOne(ids)
    ensures forall i, j :: 0 <= i < j < |ids| ==> 0 < ids[i] < ids[j]
  {
  }

  /** Count of administrators that have ever connected. The ghost sequence
      `issued` lists the ids handed out since the counter was reset. */
  class AdminStats {
    var counter: int
    ghost var issued: seq<int>

    ghost predicate Valid()
      reads this
    {
      counter == |issued| && IdsFromOne(issued)
    }

    /** `AdminStats adminStats;` in `main`: declared, `counter` not yet set. */
    constructor Declare()
      ensures issued == []
    {
      counter := *;
      issued := [];
    }

    /** `adminStats->counter = 0` in `admin_begin_processing`. */
    method Reset()
      modifies this
      ensures Valid() && counter == 0 && issued == []
    {
      counter := 0;
      issued := [];
    }

    /** `adminId = ++counter` under `counterLock`. */
    method NextAdminId() returns (id: int)
      requires Valid()
      modifies this
      ensures Valid()
      ensures id == old(counter) + 1 && counter == id
      ensures issued == old(issued) + [id]
      ensures forall k :: 0 <= k < |old(issued)| ==> old(issued)[k] < id
    {
      counter := counter + 1;
      id := counter;
      issued := issued + [id];
    }
  }
}
