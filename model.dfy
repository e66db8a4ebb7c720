/**
 * The launcher's model objects: an emulator, its launch parameters, a ROM file and a user
 * profile. Each is an object whose fields the controllers update in place, so each is a class.
 * File paths are kept as the absolute path text they stand for.
 */
module Model {
  import opened Wrappers

  /** A Java `int`: the range of an unboxed `Integer`. */
  newtype Int32 = x: int | -0x8000_0000 <= x < 0x8000_0000

  const MaxInt32: Int32 := 0x7FFF_FFFF
  const MinInt32: Int32 := -0x8000_0000

  /** `LaunchParameters`: one argument text, null until someone sets it. */
  class LaunchParameters {
    var launchParameters: Option<string>

    constructor ()
      ensures launchParameters == None
    {
      launchParameters := None;
    }
  }

  class Emulator {
    var id: Option<Int32>
    var name: string
    var executablePath: string
    var supportedConsoles: seq<string>
    var launchParameters: LaunchParameters

    /** The three-argument constructor: no id yet, and a fresh, unset `LaunchParameters`. */
    constructor (name: string, executablePath: string, supportedConsoles: seq<string>)
      ensures this.id == None
      ensures this.name == name && this.executablePath == executablePath
      ensures this.supportedConsoles == supportedConsoles
      ensures fresh(launchParameters) && launchParameters.launchParameters == None
    {
      this.id := None;
      this.name := name;
      this.executablePath := executablePath;
      this.supportedConsoles := supportedConsoles;
      this.launchParameters := new LaunchParameters();
    }

    /**
     * `setUniqueId`: one more than the largest id in the list, or 0 for an empty list. Every
     * emulator in the list must already have an id (the comparator unboxes each one).
     */
    method SetUniqueId(emulators: seq<Emulator>)
      requires forall e :: e in emulators ==> e.id.Some?
      modifies this
      ensures id == Some(NextId(old(Ids(emulators))))
      ensures name == old(name) && executablePath == old(executablePath)
      ensures supportedConsoles == old(supportedConsoles) && launchParameters == old(launchParameters)
    {
      id := Some(NextId(Ids(emulators)));
    }

    /**
     * `equals`: the same object, or another emulator whose id, name, path and consoles are
     * equal and which shares the very same `LaunchParameters` object (that class does not
     * override `equals`, so it is compared by reference).
     */
    predicate Equals(o: Emulator?)
      reads this, o
    {
      this == o
      || (o != null && id == o.id && name == o.name && executablePath == o.executablePath
          && supportedConsoles == o.supportedConsoles && launchParameters == o.launchParameters)
    }
  }

  /** The ids of emulators that all have one, in list order. */
  function Ids(emulators: seq<Emulator>): (ids: seq<Int32>)
    requires forall e :: e in emulators ==> e.id.Some?
    reads set e | e in emulators
    ensures |ids| == |emulators|
    ensures forall i :: 0 <= i < |emulators| ==> ids[i] == emulators[i].id.value
  {
    if emulators == [] then [] else [emulators[0].id.value] + Ids(emulators[1..])
  }

  /** The largest id, as `Stream.max` with `Comparator.comparing(getId)` finds it. */
  function MaxId(ids: seq<Int32>): (m: Int32)
    requires ids != []
    ensures m in ids
    ensures forall x :: x in ids ==> x <= m
  {
    if |ids| == 1 then ids[0]
    else
      var m := MaxId(ids[1..]);
      assert forall x :: x in ids ==> x == ids[0] || x in ids[1..];
      if ids[0] > m then ids[0] else m
  }

  /**
   * The id `setUniqueId` assigns: 0 for no emulators, otherwise the maximum plus one in
   * 32-bit arithmetic, which wraps to the smallest `int` after the largest one. Below that
   * bound the new id is larger than, and so different from, every existing id.
   */
  function NextId(ids: seq<Int32>): (next: Int32)
    ensures ids == [] ==> next == 0
    ensures ids != [] && MaxId(ids) < MaxInt32 ==> next == MaxId(ids) + 1
    ensures ids != [] && MaxId(ids) < MaxInt32 ==> forall x :: x in ids ==> x < next
    ensures ids != [] && MaxId(ids) == MaxInt32 ==> next == MinInt32
  {
    if ids == [] then 0
    else if MaxId(ids) == MaxInt32 then MinInt32
    else MaxId(ids) + 1
  }

  /** An id below the wrap-around point is never handed out twice. */
  lemma {:induction false} NextIdIsUnique(emulators: seq<Emulator>)
    requires forall e :: e in emulators ==> e.id.Some?
    requires emulators == [] || MaxId(Ids(emulators)) < MaxInt32
    ensures forall e :: e in emulators ==> e.id.value != NextId(Ids(emulators))
  {
    var ids := Ids(emulators);
    forall e | e in emulators
      ensures e.id.value != NextId(ids)
    {
      var i :| 0 <= i < |emulators| && emulators[i] == e;
      assert ids[i] in ids;
    }
  }

  /** Giving a new emulator an id makes it different from every emulator of the list. */
  method AssignFreshId(e: Emulator, emulators: seq<Emulator>)
    requires forall x :: x in emulators ==> x.id.Some?
    requires e !in emulators
    requires emulators == [] || MaxId(Ids(emulators)) < MaxInt32
    modifies e
    ensures forall x :: x in emulators ==> !e.Equals(x)
  {
    NextIdIsUnique(emulators);
    e.SetUniqueId(emulators);
  }

  /** `equals` is reflexive. */
  lemma EqualsReflexive(e: Emulator)
    ensures e.Equals(e)
  {
  }

  /** `equals` is symmetric. */
  lemma EqualsSymmetric(a: Emulator, b: Emulator)
    ensures a.Equals(b) <==> b.Equals(a)
  {
  }

  /** `equals` is transitive. */
  lemma EqualsTransitive(a: Emulator, b: Emulator, c: Emulator)
    requires a.Equals(b) && b.Equals(c)
    ensures a.Equals(c)
  {
  }

  /** No emulator equals null. */
  lemma NotEqualToNull(e: Emulator)
    ensures !e.Equals(null)
  {
  }

  /**
   * Two distinct emulators built by the constructor never compare equal, whatever their
   * names, paths and consoles, because each got its own `LaunchParameters` object.
   */
  method ConstructedEmulatorsDiffer(name: string, path: string, consoles: seq<string>)
    returns (a: Emulator, b: Emulator)
    ensures a != b && !a.Equals(b) && !b.Equals(a)
    ensures a.name == b.name && a.executablePath == b.executablePath
    ensures a.supportedConsoles == b.supportedConsoles && a.id == b.id
  {
    a := new Emulator(name, path, consoles);
    b := new Emulator(name, path, consoles);
  }

  /** `RomFile`: one game, its tags, the favourite flag and its per-emulator argument overrides. */
  class RomFile {
    var name: string
    var filePath: string
    var consoles: seq<string>
    var genres: seq<string>
    var favorite: bool
    /** The override text per emulator id. */
    var launchParameters: map<Int32, string>

    constructor (name: string, filePath: string, consoles: seq<string>, genres: seq<string>,
                 favorite: bool, launchParameters: map<Int32, string>)
      ensures this.name == name && this.filePath == filePath
      ensures this.consoles == consoles && this.genres == genres
      ensures this.favorite == favorite && this.launchParameters == launchParameters
    {
      this.name := name;
      this.filePath := filePath;
      this.consoles := consoles;
      this.genres := genres;
      this.favorite := favorite;
      this.launchParameters := launchParameters;
    }
  }

  /** `UserProfile`: a user's settings and the emulators and ROMs they manage. */
  class UserProfile {
    var username: string
    var preferredLanguageShort: string
    var preferredThemeEn: string
    var emulators: seq<Emulator>
    var roms: seq<RomFile>

    /** A new profile starts in English with the light theme and no emulators or ROMs. */
    constructor (username: string)
      ensures this.username == username
      ensures preferredLanguageShort == "en" && preferredThemeEn == "light"
      ensures emulators == [] && roms == []
    {
      this.username := username;
      preferredLanguageShort := "en";
      preferredThemeEn := "light";
      emulators := [];
      roms := [];
    }
  }
}
