/**
 * One patch cycle (updateShadowTree): drain the pending batch and, when it is not empty,
 * commit the copy-on-write patch of the first render surface in a single transaction.
 */
module Patcher {
  import opened ShadowTree
  import opened Traffic

  /** The flags of a host commit. */
  datatype CommitOptions = CommitOptions(enableStateReconciliation: bool, mountSynchronously: bool)

  /** A render surface of the host: its current root and the log of commits it received. */
  class HostShadowTree {
    var root: Node
    var commits: seq<CommitOptions>

    constructor(root: Node)
      ensures this.root == root && commits == []
    {
      this.root := root;
      commits := [];
    }

    /** The host's transactional commit: installs `transaction` applied to the current root. */
    method Commit(transaction: Node -> Node, options: CommitOptions)
      modifies this
      ensures root == transaction(old(root))
      ensures commits == old(commits) + [options]
    {
      root := transaction(root);
      commits := commits + [options];
    }
  }

  /**
   * Drains the pending batch; an empty batch ends the cycle without a commit. Otherwise
   * only the first enumerated surface gets exactly one commit, with state reconciliation
   * off and synchronous mounting on, and every other surface is left alone.
   */
  method UpdateShadowTree(trafficController: TrafficController, trees: seq<HostShadowTree>)
    modifies trafficController, trees
    ensures trafficController.updates == map[]
    ensures old(trafficController.updates) == map[] ==>
      forall t :: t in trees ==> t.root == old(t.root) && t.commits == old(t.commits)
    ensures old(trafficController.updates) != map[] && trees != [] ==>
      && trees[0].root == Transaction(old(trees[0].root), old(trafficController.updates))
      && trees[0].commits == old(trees[0].commits) + [CommitOptions(false, true)]
    ensures forall t :: t in trees && t != trees[0] ==> t.root == old(t.root) && t.commits == old(t.commits)
  {
    var updates := trafficController.GetUpdates();

    if updates == map[] {
      return;
    }

    var i := 0;
    var stop := false;
    while i < |trees| && !stop
      invariant 0 <= i <= |trees|
      invariant stop <==> i > 0
      invariant i > 0 ==> trees[0].root == Transaction(old(trees[0].root), updates)
      invariant i > 0 ==> trees[0].commits == old(trees[0].commits) + [CommitOptions(false, true)]
      invariant forall t :: t in trees && (i == 0 || t != trees[0]) ==> t.root == old(t.root) && t.commits == old(t.commits)
      invariant trafficController.updates == map[]
    {
      var shadowTree := trees[i];
      shadowTree.Commit((oldRoot: Node) => Transaction(oldRoot, updates), CommitOptions(false, true));
      stop := true;
      i := i + 1;
    }
  }
}
