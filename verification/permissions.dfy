/** The permission bits the generator asks for: 0755 for every directory
    (main.go:219), and for a file 0644 unless its destination's base name is
    `gradlew`, which gets 0755 (main.go:228-234). */
module Permissions {
  import opened Text
  import opened FilePath

  /** The nine Unix permission bits of an `fs.FileMode`. */
  type Mode = m: nat | m < 512

  const DirMode: Mode := 493 // 0755
  const ExecutableMode: Mode := 493 // 0755
  const RegularMode: Mode := 420 // 0644

  /** The Gradle wrapper launcher, the one file that must be executable. */
  const LauncherScript := "gradlew"

  const OwnerRead: nat := 256
  const OwnerWrite: nat := 128
  const OwnerExec: nat := 64
  const GroupRead: nat := 32
  const GroupWrite: nat := 16
  const GroupExec: nat := 8
  const OtherRead: nat := 4
  const OtherWrite: nat := 2
  const OtherExec: nat := 1

  /** `bit` (a power of two) is set in `m`. */
  predicate Has(m: Mode, bit: nat)
    requires bit > 0
  {
    (m / bit) % 2 == 1
  }

  /** Everyone may read the file. */
  predicate ReadableByAll(m: Mode) {
    Has(m, OwnerRead) && Has(m, GroupRead) && Has(m, OtherRead)
  }

  /** Everyone may execute the file (or search the directory). */
  predicate ExecutableByAll(m: Mode) {
    Has(m, OwnerExec) && Has(m, GroupExec) && Has(m, OtherExec)
  }

  /** Nobody may execute the file. */
  predicate ExecutableByNone(m: Mode) {
    !Has(m, OwnerExec) && !Has(m, GroupExec) && !Has(m, OtherExec)
  }

  /** Only the owner may write. */
  predicate OwnerOnlyWrites(m: Mode) {
    Has(m, OwnerWrite) && !Has(m, GroupWrite) && !Has(m, OtherWrite)
  }

  /** The mode a file is written with, chosen from its destination path. */
  function FileMode(dest: string): (m: Mode)
    ensures Base(dest) == LauncherScript ==> ExecutableByAll(m)
    ensures Base(dest) != LauncherScript ==> ExecutableByNone(m)
    ensures ReadableByAll(m) && OwnerOnlyWrites(m)
  {
    ModeBits();
    if Base(dest) == LauncherScript then ExecutableMode else RegularMode
  }

  lemma ModeBits()
    ensures ExecutableByAll(ExecutableMode) && ExecutableByNone(RegularMode)
    ensures ReadableByAll(ExecutableMode) && OwnerOnlyWrites(ExecutableMode)
    ensures ReadableByAll(RegularMode) && OwnerOnlyWrites(RegularMode)
  {
  }

  /** The readable, owner-written modes are told apart by their execute
      bits alone: with all of them set the mode is 0755, with none 0644. */
  lemma ModeDeterminedByBits(m: Mode)
    requires ReadableByAll(m) && OwnerOnlyWrites(m)
    ensures ExecutableByAll(m) ==> m == ExecutableMode
    ensures ExecutableByNone(m) ==> m == RegularMode
  {
    OwnerDigit(m);
    GroupDigit(m);
    OtherDigit(m);
    OctalDigits(m);
  }

  /** A mode is its three octal digits: owner, group, others. */
  lemma OctalDigits(m: Mode)
    ensures m == 64 * (m / 64) + 8 * ((m % 64) / 8) + m % 8
  {
  }

  lemma OwnerDigit(m: Mode)
    requires Has(m, OwnerRead) && Has(m, OwnerWrite)
    ensures m / 64 == if Has(m, OwnerExec) then 7 else 6
  {
  }

  lemma GroupDigit(m: Mode)
    requires Has(m, GroupRead) && !Has(m, GroupWrite)
    ensures (m % 64) / 8 == if Has(m, GroupExec) then 5 else 4
  {
    var q, r := m / 64, m % 64;
    assert m == 64 * q + r;
    assert m / 32 == 2 * q + r / 32 && r / 32 == 1;
    assert m / 16 == 4 * q + r / 16 && r / 16 == 2;
    assert m / 8 == 8 * q + r / 8;
  }

  lemma OtherDigit(m: Mode)
    requires Has(m, OtherRead) && !Has(m, OtherWrite)
    ensures m % 8 == if Has(m, OtherExec) then 5 else 4
  {
  }

  /** For a destination that does not end in `/`, the file is executable by
      all when the destination is `gradlew` or ends in `/gradlew`, and by
      nobody otherwise. */
  lemma LauncherByPath(dest: string)
    requires |dest| > 0 && dest[|dest| - 1] != '/'
    ensures ExecutableByAll(FileMode(dest)) <==>
              dest == LauncherScript || EndsWith(dest, "/" + LauncherScript)
    ensures ExecutableByNone(FileMode(dest)) <==>
              !(dest == LauncherScript || EndsWith(dest, "/" + LauncherScript))
  {
    assert '/' !in LauncherScript;
    BaseIsName(dest, LauncherScript);
  }

  /** The same for a destination joined to the output directory: only the
      relative part decides. */
  lemma LauncherByRelPath(dir: string, rel: string)
    requires |dir| > 0 && |rel| > 0 && rel[|rel| - 1] != '/'
    ensures ExecutableByAll(FileMode(Join(dir, rel))) <==>
              rel == LauncherScript || EndsWith(rel, "/" + LauncherScript)
    ensures ExecutableByNone(FileMode(Join(dir, rel))) <==>
              !(rel == LauncherScript || EndsWith(rel, "/" + LauncherScript))
  {
    assert '/' !in LauncherScript;
    BaseOfJoin(dir, rel, LauncherScript);
  }
}
