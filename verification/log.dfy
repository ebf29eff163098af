/** Log-level arithmetic of scripts/util/log.py: `-v` lowers the threshold one
    step per flag and `-q` raises it, starting from WARNING and clamped to the
    ends of the level table. */
module Log {
  import opened Wrappers

  // The numeric values of Python's logging levels.
  const NOTSET: int := 0
  const DEBUG: int := 10
  const INFO: int := 20
  const WARNING: int := 30
  const ERROR: int := 40
  const CRITICAL: int := 50

  const Levels: seq<int> := [NOTSET, DEBUG, INFO, WARNING, ERROR, CRITICAL]
  const LogLevel: int := WARNING

  /** `ValueError('Input must not be less than 0')`. */
  datatype LevelError = NegativeCount

  /** `xs.index(x)`: the position of the first occurrence. */
  function IndexOf(xs: seq<int>, x: int): (i: nat)
    requires x in xs
    ensures i < |xs| && xs[i] == x
    ensures forall j :: 0 <= j < i ==> xs[j] != x
  {
    if xs[0] == x then 0 else 1 + IndexOf(xs[1..], x)
  }

  function Max(a: int, b: int): int { if a >= b then a else b }
  function Min(a: int, b: int): int { if a <= b then a else b }

  /** The level index `verbose` and `quiet` select: the default index moved
      down by `verbose` and up by `quiet`, kept inside the table. */
  function LevelIndex(verbose: nat, quiet: nat): (i: nat)
    ensures i < |Levels|
  {
    Min(|Levels| - 1, Max(0, IndexOf(Levels, LogLevel) + quiet - verbose))
  }

  /** `compute_level(verbose, quiet)`. */
  function ComputeLevel(verbose: int, quiet: int): (r: Result<int, LevelError>)
    ensures r.Failure? <==> verbose < 0 || quiet < 0
    ensures r.Success? ==> r.value in Levels
  {
    if verbose < 0 || quiet < 0 then Failure(NegativeCount)
    else Success(Levels[LevelIndex(verbose, quiet)])
  }

  /** The level table is strictly increasing, so a larger index is a higher
      (less verbose) level. */
  lemma LevelsIncreasing(i: nat, j: nat)
    requires i < j < |Levels|
    ensures Levels[i] < Levels[j]
  {
  }

  /** With neither flag the level is the default, WARNING, at index 3. */
  lemma DefaultLevel()
    ensures IndexOf(Levels, LogLevel) == 3
    ensures ComputeLevel(0, 0) == Success(WARNING)
  {
    assert Levels[3] == LogLevel;
  }

  /** Asking for more quiet never lowers the level. */
  lemma QuietMonotone(verbose: nat, quiet: nat, quiet': nat)
    requires quiet <= quiet'
    ensures ComputeLevel(verbose, quiet).value <= ComputeLevel(verbose, quiet').value
  {
    DefaultLevel();
    var i, j := LevelIndex(verbose, quiet), LevelIndex(verbose, quiet');
    if i < j {
      LevelsIncreasing(i, j);
    }
  }

  /** Asking for more verbosity never raises the level. */
  lemma VerboseAntitone(verbose: nat, verbose': nat, quiet: nat)
    requires verbose <= verbose'
    ensures ComputeLevel(verbose', quiet).value <= ComputeLevel(verbose, quiet).value
  {
    DefaultLevel();
    var i, j := LevelIndex(verbose', quiet), LevelIndex(verbose, quiet);
    if i < j {
      LevelsIncreasing(i, j);
    }
  }

  /** Away from the ends each extra `-q` moves exactly one entry up the table. */
  lemma QuietStep(verbose: nat, quiet: nat)
    requires 0 <= 3 + quiet - verbose < |Levels| - 1
    ensures ComputeLevel(verbose, quiet + 1).value == Levels[3 + quiet - verbose + 1]
    ensures ComputeLevel(verbose, quiet).value == Levels[3 + quiet - verbose]
  {
    DefaultLevel();
  }

  /** The level saturates: CRITICAL once quiet exceeds verbose by two or more,
      NOTSET once verbose exceeds quiet by three or more. */
  lemma Saturation(verbose: nat, quiet: nat)
    ensures quiet >= verbose + 2 ==> ComputeLevel(verbose, quiet) == Success(CRITICAL)
    ensures verbose >= quiet + 3 ==> ComputeLevel(verbose, quiet) == Success(NOTSET)
  {
    DefaultLevel();
  }

  /** The level given to library loggers (`lower_level_for_libraries`): the
      application's level, but never below WARNING. */
  function LibraryLevel(minLevel: int): (r: int)
    ensures r >= WARNING && r >= minLevel
    ensures r == minLevel || r == WARNING
  {
    Max(minLevel, WARNING)
  }
}
