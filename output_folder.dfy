/**
 * The output directory both scripts fill. It is the one piece of state the
 * scripts change from outside: `mkdir` creates it, `shutil.copy2` places a
 * copy of a source file under the same base name (replacing what was there),
 * and `Path.symlink_to` places a link, failing when the name is taken.
 */
module OutputFolder {

  /** Which input directory a placed file comes from. */
  datatype Origin = ImageDir | TextDir

  /** What the output holds under a name: a copy of, or a link to, the file of
      that name in one of the input directories. */
  datatype Artifact = CopyOf(origin: Origin, source: string) | LinkTo(origin: Origin, source: string)

  class OutputDir {
    /** Whether the directory exists. */
    var present: bool
    /** Base name -> what is stored under it. */
    var entries: map<string, Artifact>

    constructor (present: bool, entries: map<string, Artifact>)
      ensures this.present == present && this.entries == entries
    {
      this.present := present;
      this.entries := entries;
    }

    /** `mkdir(parents=True, exist_ok=True)`: afterwards the directory exists,
        and what it held is kept. */
    method MakeDirs()
      modifies this
      ensures present
      ensures entries == old(entries)
    {
      present := true;
    }

    /** `shutil.copy2(source, output / name)`: the copy replaces any entry of
        that name. */
    method Copy2(origin: Origin, name: string)
      requires present
      modifies this
      ensures present
      ensures entries == old(entries)[name := CopyOf(origin, name)]
    {
      entries := entries[name := CopyOf(origin, name)];
    }

    /** `(output / name).symlink_to(source)`: refused, leaving the directory
        as it was, when the name is already taken. */
    method SymlinkTo(origin: Origin, name: string) returns (ok: bool)
      requires present
      modifies this
      ensures present
      ensures ok <==> name !in old(entries)
      ensures entries == if ok then old(entries)[name := LinkTo(origin, name)] else old(entries)
    {
      ok := name !in entries;
      if ok {
        entries := entries[name := LinkTo(origin, name)];
      }
    }
  }

}
