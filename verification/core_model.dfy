/** The per-contributor summary the reports are built from, and the repository statistics that hold them. */
module CoreModel {
  import opened Wrappers

  const MinInt32 := -0x8000_0000
  const MaxInt32 := 0x7FFF_FFFF

  predicate InInt32(x: int) {
    MinInt32 <= x <= MaxInt32
  }

  /** Two's-complement 32-bit addition wraps around: the int32 congruent to `x` modulo 2^32. */
  function Wrap32(x: int): int {
    (x - MinInt32) % 0x1_0000_0000 + MinInt32
  }

  /**
   * A contributor's summary. The record's properties are init-only, so a
   * value of this datatype is never changed after it is built.
   */
  datatype ContributorStatistics = ContributorStatistics(
    username: Option<string>,
    totalCommits: int,
    linesAdded: int,
    linesDeleted: int)
  {
    /**
     * Lines added plus lines deleted, computed on every read and never
     * stored, with the wrap-around of unchecked int32 addition.
     */
    function LinesChanged(): (r: int)
      ensures InInt32(r)
      ensures InInt32(linesAdded + linesDeleted) ==> r == linesAdded + linesDeleted
      ensures (r - (linesAdded + linesDeleted)) % 0x1_0000_0000 == 0
    {
      Wrap32(linesAdded + linesDeleted)
    }
  }

  /** The summary `new ContributorStatistics()` builds: no username and every count zero. */
  const Default := ContributorStatistics(None, 0, 0, 0)

  /** `LinesChanged` depends on the added and deleted counts and on nothing else. */
  lemma LinesChangedDerived(a: ContributorStatistics, b: ContributorStatistics)
    requires a.linesAdded == b.linesAdded && a.linesDeleted == b.linesDeleted
    ensures a.LinesChanged() == b.LinesChanged()
  {
  }

  /** A default summary has no username, zero counts and zero lines changed. */
  lemma DefaultIsEmpty()
    ensures Default.username.None?
    ensures Default.totalCommits == 0 && Default.linesAdded == 0 && Default.linesDeleted == 0
    ensures Default.LinesChanged() == 0
  {
  }

  /** Past the int32 range the derived count wraps: 2147483647 added and 1 deleted reads as -2147483648. */
  lemma LinesChangedOverflow(s: ContributorStatistics)
    requires s.linesAdded == MaxInt32 && s.linesDeleted == 1
    ensures s.LinesChanged() == MinInt32
  {
  }

  /** The statistics of a repository: the contributor summaries, in the order they were added. */
  class RepositoryStatistics {
    var contributors: seq<ContributorStatistics>

    constructor ()
      ensures contributors == []
    {
      contributors := [];
    }
  }
}
