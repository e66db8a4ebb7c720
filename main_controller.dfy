/**
 * The ROM list logic of MainController.java: which ROMs the search field and the filter box let
 * through, which emulators of the profile can run a ROM, and the favourite toggle. The table,
 * the windows and the saving of the configuration are not modelled.
 */
module MainController {
  import opened JavaStrings
  import opened Model

  /** The entries of the filter box; `AllRoms` stands for every value that is none of the other three. */
  datatype FilterOption = AllRoms | Favorites | ByConsole | ByGenre

  /** Some tag, lower-cased, contains the (already lower-cased) search text. */
  predicate AnyTagContains(tags: seq<string>, searchText: string) {
    exists i :: 0 <= i < |tags| && Contains(ToLower(tags[i]), searchText)
  }

  /** The search part of the `applyFilters` predicate: name, a console or a genre contains the text. */
  predicate MatchesSearch(rom: RomFile, searchText: string)
    reads rom
  {
    var text := ToLower(searchText);
    Contains(ToLower(rom.name), text) || AnyTagContains(rom.consoles, text) || AnyTagContains(rom.genres, text)
  }

  /** The `applyFilters` predicate: the search must match, and then the filter option decides. */
  predicate Shown(rom: RomFile, searchText: string, option: FilterOption)
    reads rom
  {
    var text := ToLower(searchText);
    MatchesSearch(rom, searchText)
    && match option
       case Favorites => rom.favorite
       case ByConsole => AnyTagContains(rom.consoles, text)
       case ByGenre => AnyTagContains(rom.genres, text)
       case AllRoms => true
  }

  /** `a` is `b` with some elements left out, the rest kept in order. */
  predicate IsSubsequence<T(==)>(a: seq<T>, b: seq<T>)
    decreases |b|
  {
    a == [] || (b != [] && ((a[0] == b[0] && IsSubsequence(a[1..], b[1..])) || IsSubsequence(a, b[1..])))
  }

  /**
   * The filtered list the table shows: exactly the ROMs the predicate accepts, in list order.
   */
  function FilteredRoms(roms: seq<RomFile>, searchText: string, option: FilterOption): (shown: seq<RomFile>)
    reads set r | r in roms
    ensures forall i :: 0 <= i < |shown| ==> shown[i] in roms && Shown(shown[i], searchText, option)
    ensures forall i :: 0 <= i < |roms| && Shown(roms[i], searchText, option) ==> roms[i] in shown
    ensures IsSubsequence(shown, roms)
  {
    if roms == [] then []
    else
      var rest := FilteredRoms(roms[1..], searchText, option);
      if Shown(roms[0], searchText, option) then [roms[0]] + rest else rest
  }

  /** A ROM the predicate accepts is shown as often as it occurs in the list; one it rejects never. */
  lemma {:induction false} FilteredRomsCount(roms: seq<RomFile>, searchText: string, option: FilterOption, r: RomFile)
    requires r in roms
    ensures multiset(FilteredRoms(roms, searchText, option))[r]
         == if Shown(r, searchText, option) then multiset(roms)[r] else 0
    decreases |roms|
  {
    var rest := FilteredRoms(roms[1..], searchText, option);
    assert roms == [roms[0]] + roms[1..];
    if r in roms[1..] {
      FilteredRomsCount(roms[1..], searchText, option, r);
    } else {
      assert r !in rest;
    }
  }

  /** Every string contains the empty string. */
  lemma ContainsEmpty(s: string)
    ensures Contains(s, "")
  {
  }

  /** An empty search lets every ROM through the search part. */
  lemma EmptySearchMatchesAll(rom: RomFile)
    ensures MatchesSearch(rom, "")
  {
    ContainsEmpty(ToLower(rom.name));
  }

  /** With an empty search and no filter option the whole list is shown, in its order. */
  lemma {:induction false} EmptySearchShowsEverything(roms: seq<RomFile>)
    ensures FilteredRoms(roms, "", AllRoms) == roms
    decreases |roms|
  {
    if roms != [] {
      EmptySearchMatchesAll(roms[0]);
      EmptySearchShowsEverything(roms[1..]);
    }
  }

  /** Each filter option only narrows what the search alone lets through. */
  lemma OptionsNarrowTheSearch(rom: RomFile, searchText: string, option: FilterOption)
    ensures Shown(rom, searchText, option) ==> Shown(rom, searchText, AllRoms)
    ensures Shown(rom, searchText, AllRoms) <==> MatchesSearch(rom, searchText)
    ensures Shown(rom, searchText, Favorites) <==> MatchesSearch(rom, searchText) && rom.favorite
  {
  }

  /**
   * With the console option a ROM needs a console containing the text: a match in the name
   * (or a genre) alone is not enough; the genre option likewise needs a genre.
   */
  lemma {:induction false} TagOptionsNeedATagMatch(rom: RomFile, searchText: string)
    ensures Shown(rom, searchText, ByConsole) <==> AnyTagContains(rom.consoles, ToLower(searchText))
    ensures Shown(rom, searchText, ByGenre) <==> AnyTagContains(rom.genres, ToLower(searchText))
  {
  }

  // ---------------------------------------------------------------- compatible emulators

  /** Some supported console equals some console of the ROM, ignoring case. */
  predicate Compatible(emulator: Emulator, rom: RomFile)
    reads emulator, rom
  {
    exists i, j :: 0 <= i < |emulator.supportedConsoles| && 0 <= j < |rom.consoles|
      && ToLower(emulator.supportedConsoles[i]) == ToLower(rom.consoles[j])
  }

  /** The emulators offered for a ROM: those of the profile that are compatible, in profile order. */
  function CompatibleEmulators(emulators: seq<Emulator>, rom: RomFile): (compatible: seq<Emulator>)
    reads rom, set e | e in emulators
    ensures forall i :: 0 <= i < |compatible| ==> compatible[i] in emulators && Compatible(compatible[i], rom)
    ensures forall i :: 0 <= i < |emulators| && Compatible(emulators[i], rom) ==> emulators[i] in compatible
    ensures IsSubsequence(compatible, emulators)
  {
    if emulators == [] then []
    else
      var rest := CompatibleEmulators(emulators[1..], rom);
      if Compatible(emulators[0], rom) then [emulators[0]] + rest else rest
  }

  /** A compatible emulator is offered as often as it occurs in the profile; another never. */
  lemma {:induction false} CompatibleEmulatorsCount(emulators: seq<Emulator>, rom: RomFile, e: Emulator)
    requires e in emulators
    ensures multiset(CompatibleEmulators(emulators, rom))[e]
         == if Compatible(e, rom) then multiset(emulators)[e] else 0
    decreases |emulators|
  {
    var rest := CompatibleEmulators(emulators[1..], rom);
    assert emulators == [emulators[0]] + emulators[1..];
    if e in emulators[1..] {
      CompatibleEmulatorsCount(emulators[1..], rom, e);
    } else {
      assert e !in rest;
    }
  }

  /** Case does not matter: "SNES" on an emulator of the profile matches "snes" on the ROM. */
  lemma CaseInsensitiveMatch(emulators: seq<Emulator>, emulator: Emulator, rom: RomFile, i: nat, j: nat)
    requires emulator in emulators
    requires i < |emulator.supportedConsoles| && j < |rom.consoles|
    requires ToLower(emulator.supportedConsoles[i]) == ToLower(rom.consoles[j])
    ensures emulator in CompatibleEmulators(emulators, rom)
  {
    var k :| 0 <= k < |emulators| && emulators[k] == emulator;
    assert Compatible(emulators[k], rom);
  }

  /** An emulator without a shared console is never offered. */
  lemma NoSharedConsoleNotOffered(emulators: seq<Emulator>, rom: RomFile, e: Emulator)
    requires forall i, j :: (0 <= i < |e.supportedConsoles| && 0 <= j < |rom.consoles|
      ==> ToLower(e.supportedConsoles[i]) != ToLower(rom.consoles[j]))
    ensures e !in CompatibleEmulators(emulators, rom)
  {
  }

  // ---------------------------------------------------------------- favourites

  /** `toggleFavorite`: the flag flips and nothing else of the ROM changes. */
  method ToggleFavorite(rom: RomFile)
    modifies rom
    ensures rom.favorite == !old(rom.favorite)
    ensures rom.name == old(rom.name) && rom.filePath == old(rom.filePath)
    ensures rom.consoles == old(rom.consoles) && rom.genres == old(rom.genres)
    ensures rom.launchParameters == old(rom.launchParameters)
  {
    rom.favorite := !rom.favorite;
  }

  /** Toggling twice restores the original flag. */
  method ToggleFavoriteTwice(rom: RomFile)
    modifies rom
    ensures rom.favorite == old(rom.favorite)
  {
    ToggleFavorite(rom);
    ToggleFavorite(rom);
  }
}
