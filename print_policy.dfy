/** The print-level rule shared by every matrix: an explicit level is used (clamped
    into the enumeration in the current revision, as is in the earlier one); level 0
    (`print_auto`) picks a level from the extent. */
module PrintPolicy {

  /** `print_t`: `print_auto=0, print_size, print_signs, print_full, print_file`. */
  datatype Level = Auto | SizeOnly | Signs | Full | File

  function Ordinal(l: Level): (n: nat)
    ensures n <= 4
  {
    match l
    case Auto => 0
    case SizeOnly => 1
    case Signs => 2
    case Full => 3
    case File => 4
  }

  function LevelOf(n: int): (l: Level)
    requires 0 <= n <= 4
    ensures Ordinal(l) == n
  {
    if n == 0 then Auto else if n == 1 then SizeOnly else if n == 2 then Signs else if n == 3 then Full else File
  }

  /** The level picked for `print_auto`: a summary above 100 rows or columns, the sign
      pattern above 10, every value otherwise. */
  function AutoLevel(rows: nat, cols: nat): (l: Level)
    ensures l in {SizeOnly, Signs, Full}
    ensures l == SizeOnly <==> rows > 100 || cols > 100
    ensures l == Full <==> rows <= 10 && cols <= 10
  {
    if rows > 100 || cols > 100 then SizeOnly
    else if rows > 10 || cols > 10 then Signs
    else Full
  }

  /** `matrix::print` of the current revision: a nonzero level is clamped into
      `[print_auto, print_file]`, zero resolves by the extent. */
  function Resolve(level: int, rows: nat, cols: nat): (l: Level)
    ensures level == 0 ==> l == AutoLevel(rows, cols)
    ensures 1 <= level <= 4 ==> Ordinal(l) == level
    ensures level > 4 ==> l == File
    ensures level < 0 ==> l == Auto
  {
    if level != 0 then LevelOf(if level < 0 then 0 else if level > 4 then 4 else level)
    else AutoLevel(rows, cols)
  }

  /** `matrix::print` and `sparse_matrix_csr::print` of the earlier revision: a nonzero
      level is used unchanged (its ordinal), zero resolves by the extent. */
  function ResolveDetail(level: int, rows: nat, cols: nat): (n: int)
    ensures level != 0 ==> n == level
    ensures level == 0 ==> n == Ordinal(AutoLevel(rows, cols)) && 1 <= n <= 3
  {
    if level != 0 then level else Ordinal(AutoLevel(rows, cols))
  }

  /** The clamp: an explicit positive level is kept when it names a level and becomes
      `print_file` above it; a negative level becomes `print_auto` (which prints nothing);
      level 0 never resolves to `print_auto` or `print_file`. */
  lemma ResolveClamps(level: int, rows: nat, cols: nat)
    ensures 1 <= level <= 4 ==> Ordinal(Resolve(level, rows, cols)) == level
    ensures level > 4 ==> Resolve(level, rows, cols) == File
    ensures level < 0 ==> Resolve(level, rows, cols) == Auto
    ensures level == 0 ==> Resolve(level, rows, cols) in {SizeOnly, Signs, Full}
  {
  }

  /** The automatic choice by extent, threshold by threshold. */
  lemma AutoThresholds(rows: nat, cols: nat)
    ensures Resolve(0, rows, cols) == SizeOnly <==> rows > 100 || cols > 100
    ensures Resolve(0, rows, cols) == Signs <==> (rows > 10 || cols > 10) && rows <= 100 && cols <= 100
    ensures Resolve(0, rows, cols) == Full <==> rows <= 10 && cols <= 10
  {
  }

  /** A larger matrix never gets a more detailed automatic level. */
  lemma AutoLevelMonotone(r1: nat, c1: nat, r2: nat, c2: nat)
    requires r1 <= r2 && c1 <= c2
    ensures Ordinal(Resolve(0, r2, c2)) <= Ordinal(Resolve(0, r1, c1))
  {
  }

  /** Both revisions agree on every level inside the enumeration; outside it the earlier
      one passes the raw value on while the current one clamps. */
  lemma RevisionsAgreeInRange(level: int, rows: nat, cols: nat)
    ensures 0 <= level <= 4 ==> ResolveDetail(level, rows, cols) == Ordinal(Resolve(level, rows, cols))
    ensures level > 4 ==> ResolveDetail(level, rows, cols) == level != Ordinal(Resolve(level, rows, cols))
  {
  }
}
