/**
 * The save handler of AddRomController.java: the console and genre fields are normalised into
 * sorted lists of distinct tags, the input is validated, and a valid ROM is added to the current
 * profile, whose list is then sorted by name. The same tag normalisation is used by the other
 * ROM and emulator forms. Alerts and closing the window are not modelled; whether the path
 * names an existing file is given as a flag.
 */
module AddRomController {
  import opened JavaStrings
  import opened Model

  // ---------------------------------------------------------------- sorting by a string key

  /** Ordered by the key in `compareTo` order. */
  predicate SortedBy<T>(xs: seq<T>, key: T -> string) {
    forall i, j :: 0 <= i < j < |xs| ==> LessEq(key(xs[i]), key(xs[j]))
  }

  /** Every element of a sorted list is at least as large as its first element. */
  lemma {:induction false} FirstIsLeast<T>(x: T, xs: seq<T>, key: T -> string)
    requires SortedBy(xs, key) && xs != [] && LessEq(key(x), key(xs[0]))
    ensures forall j :: 0 <= j < |xs| ==> LessEq(key(x), key(xs[j]))
  {
    forall j | 0 <= j < |xs|
      ensures LessEq(key(x), key(xs[j]))
    {
      if j > 0 {
        LessEqTransitive(key(x), key(xs[0]), key(xs[j]));
      }
    }
  }

  /** Inserting before the first element that is not smaller keeps the list sorted. */
  function InsertBy<T>(x: T, xs: seq<T>, key: T -> string): (r: seq<T>)
    requires SortedBy(xs, key)
    ensures SortedBy(r, key)
    ensures multiset(r) == multiset(xs) + multiset{x}
    ensures |r| == |xs| + 1
  {
    if xs == [] then [x]
    else if LessEq(key(x), key(xs[0])) then
      FirstIsLeast(x, xs, key);
      [x] + xs
    else
      LessEqTotal(key(x), key(xs[0]));
      var rest := InsertBy(x, xs[1..], key);
      assert xs == [xs[0]] + xs[1..];
      LeastBeforeInsert(xs[0], x, xs[1..], rest, key);
      [xs[0]] + rest
  }

  lemma LeastBeforeInsert<T>(y: T, x: T, tail: seq<T>, rest: seq<T>, key: T -> string)
    requires SortedBy([y] + tail, key) && LessEq(key(y), key(x))
    requires SortedBy(rest, key) && multiset(rest) == multiset(tail) + multiset{x}
    ensures SortedBy([y] + rest, key)
  {
    var s := [y] + tail;
    forall k | 0 <= k < |rest|
      ensures LessEq(key(y), key(rest[k]))
    {
      assert rest[k] in multiset(rest);
      if rest[k] != x {
        assert rest[k] in multiset(tail);
        var m :| 0 <= m < |tail| && tail[m] == rest[k];
        assert s[0] == y && s[m + 1] == tail[m];
        assert LessEq(key(s[0]), key(s[m + 1]));
      }
    }
    var r := [y] + rest;
    forall i, j | 0 <= i < j < |r|
      ensures LessEq(key(r[i]), key(r[j]))
    {
      if i > 0 {
        assert r[i] == rest[i - 1] && r[j] == rest[j - 1];
      }
    }
  }

  /** `sorted()` / `List.sort` by the key: sorted, and a permutation of the input. */
  function SortBy<T>(xs: seq<T>, key: T -> string): (r: seq<T>)
    ensures SortedBy(r, key)
    ensures multiset(r) == multiset(xs)
    ensures |r| == |xs|
  {
    if xs == [] then []
    else
      assert xs == [xs[0]] + xs[1..];
      InsertBy(xs[0], SortBy(xs[1..], key), key)
  }

  /** Sorting a sorted list changes nothing. */
  lemma {:induction false} SortOfSorted<T>(xs: seq<T>, key: T -> string)
    requires SortedBy(xs, key)
    ensures SortBy(xs, key) == xs
  {
    if xs != [] {
      var tail := xs[1..];
      assert SortedBy(tail, key) by {
        forall i, j | 0 <= i < j < |tail| ensures LessEq(key(tail[i]), key(tail[j])) {
          assert tail[i] == xs[i + 1] && tail[j] == xs[j + 1];
        }
      }
      SortOfSorted(tail, key);
      if tail != [] {
        assert LessEq(key(xs[0]), key(xs[1]));
      }
      assert [xs[0]] + tail == xs;
    }
  }

  // ---------------------------------------------------------------- tag normalisation

  /** The natural order of strings: each tag is its own key. */
  function NaturalKey(s: string): string {
    s
  }

  predicate NoDuplicates<T(==)>(xs: seq<T>) {
    forall i, j :: 0 <= i < j < |xs| ==> xs[i] != xs[j]
  }

  /** `map(String::trim)` */
  function TrimAll(pieces: seq<string>): (r: seq<string>)
    ensures |r| == |pieces|
    ensures forall i :: 0 <= i < |r| ==> r[i] == Trim(pieces[i])
  {
    if pieces == [] then [] else [Trim(pieces[0])] + TrimAll(pieces[1..])
  }

  /** `distinct()`: the first occurrence of each element not yet seen, in order. */
  function DistinctAfter(xs: seq<string>, seen: set<string>): (r: seq<string>)
    ensures NoDuplicates(r)
    ensures forall x :: x in r <==> x in xs && x !in seen
  {
    if xs == [] then []
    else if xs[0] in seen then DistinctAfter(xs[1..], seen)
    else
      var rest := DistinctAfter(xs[1..], seen + {xs[0]});
      assert forall x :: x in xs <==> x == xs[0] || x in xs[1..];
      [xs[0]] + rest
  }

  function Distinct(xs: seq<string>): (r: seq<string>)
    ensures NoDuplicates(r)
    ensures forall x :: x in r <==> x in xs
  {
    DistinctAfter(xs, {})
  }

  /** `filter(x -> !x.isEmpty())`, which keeps the order and so keeps the list free of duplicates. */
  function NonEmpty(xs: seq<string>): (r: seq<string>)
    ensures forall x :: x in r <==> x in xs && x != ""
    ensures NoDuplicates(xs) ==> NoDuplicates(r)
  {
    if xs == [] then []
    else
      var rest := NonEmpty(xs[1..]);
      assert forall x :: x in xs <==> x == xs[0] || x in xs[1..];
      if xs[0] == "" then rest
      else
        assert NoDuplicates(xs) ==> xs[0] !in xs[1..];
        [xs[0]] + rest
  }

  /** A list without duplicates has each element once. */
  lemma {:induction false} CountOfNoDuplicates(xs: seq<string>, x: string)
    requires NoDuplicates(xs)
    ensures multiset(xs)[x] <= 1
  {
    if xs != [] {
      assert xs == [xs[0]] + xs[1..];
      CountOfNoDuplicates(xs[1..], x);
      assert xs[0] !in xs[1..];
    }
  }

  /** A permutation of a list without duplicates has none either. */
  lemma NoDuplicatesPermutation(a: seq<string>, b: seq<string>)
    requires NoDuplicates(a) && multiset(a) == multiset(b)
    ensures NoDuplicates(b)
  {
    forall i, j | 0 <= i < j < |b|
      ensures b[i] != b[j]
    {
      CountOfNoDuplicates(a, b[i]);
      TwoPositionsCountTwice(b, i, j);
    }
  }

  lemma TwoPositionsCountTwice(b: seq<string>, i: nat, j: nat)
    requires i < j < |b|
    ensures b[i] == b[j] ==> multiset(b)[b[i]] >= 2
  {
    assert b == b[..j] + [b[j]] + b[j + 1..];
    assert b[i] in b[..j];
    assert multiset(b) == multiset(b[..j]) + multiset{b[j]} + multiset(b[j + 1..]);
  }

  /** A tag as normalisation leaves it: non-empty, trimmed, without a comma. */
  predicate IsTag(t: string) {
    t != "" && IsTrimmed(t) && ',' !in t
  }

  /** Trimming keeps a character out that the piece does not hold. */
  lemma TrimKeepsOut(s: string, c: char)
    requires c !in s
    ensures c !in Trim(s)
  {
    var t := TrimStart(s);
    assert c !in t by {
      assert t == s[|s| - |t|..];
    }
    var r := TrimEnd(t);
    assert r == t[..|r|];
  }

  /** Trimmed comma-free pieces are trimmed and comma-free. */
  lemma TrimmedPieces(pieces: seq<string>)
    requires forall p :: p in pieces ==> ',' !in p
    ensures forall x :: x in TrimAll(pieces) ==> IsTrimmed(x) && ',' !in x
  {
    var trimmed := TrimAll(pieces);
    forall x | x in trimmed ensures ',' !in x {
      var i :| 0 <= i < |trimmed| && trimmed[i] == x;
      assert pieces[i] in pieces;
      TrimKeepsOut(pieces[i], ',');
    }
  }

  /** The comma-separated pieces, trimmed, without duplicates and empties. */
  function DistinctTags(text: string): (tags: seq<string>)
    ensures NoDuplicates(tags)
    ensures forall x :: x in tags <==> x != "" && x in TrimAll(Split(text, ','))
    ensures forall x :: x in tags ==> IsTag(x)
  {
    var trimmed := TrimAll(Split(text, ','));
    TrimmedPieces(Split(text, ','));
    NonEmpty(Distinct(trimmed))
  }

  /**
   * The tags a console or genre field holds after saving: every non-empty trimmed piece of the
   * text once, in ascending order.
   */
  function TagList(text: string): (tags: seq<string>)
    ensures SortedBy(tags, NaturalKey) && NoDuplicates(tags)
    ensures forall x :: x in tags <==> x != "" && x in TrimAll(Split(text, ','))
    ensures forall x :: x in tags ==> IsTag(x)
  {
    var distinct := DistinctTags(text);
    var tags := SortBy(distinct, NaturalKey);
    NoDuplicatesPermutation(distinct, tags);
    SameElements(distinct, tags);
    tags
  }

  lemma SameElements(a: seq<string>, b: seq<string>)
    requires multiset(a) == multiset(b)
    ensures forall x :: x in a <==> x in b
  {
    forall x ensures x in a <==> x in b {
      assert x in a <==> x in multiset(a);
      assert x in b <==> x in multiset(b);
    }
  }

  /** The normalised field text: the tags joined by commas. */
  function NormalizeTags(text: string): string {
    Join(',', TagList(text))
  }

  /** Saved text splits back into exactly its tags. */
  lemma SplitNormalized(text: string)
    requires TagList(text) != []
    ensures Split(NormalizeTags(text), ',') == TagList(text)
  {
    var tags := TagList(text);
    forall p | p in tags ensures p != "" && ',' !in p {
      var i :| 0 <= i < |tags| && tags[i] == p;
    }
    SplitJoin(',', tags);
  }

  /** Text without tags normalises to "". */
  lemma NoTagsNormalizeToEmpty(text: string)
    ensures TagList(text) == [] <==> NormalizeTags(text) == ""
  {
    var tags := TagList(text);
    if tags != [] {
      assert tags[0] in tags;
      JoinOfTagsNotEmpty(tags);
    }
  }

  lemma {:induction false} JoinOfTagsNotEmpty(tags: seq<string>)
    requires tags != [] && tags[0] != ""
    ensures Join(',', tags) != ""
  {
    if |tags| > 1 {
      assert Join(',', tags) == tags[0] + [','] + Join(',', tags[1..]);
    }
  }

  lemma {:induction false} DistinctAfterOfDistinct(xs: seq<string>, seen: set<string>)
    requires NoDuplicates(xs) && forall x :: x in xs ==> x !in seen
    ensures DistinctAfter(xs, seen) == xs
  {
    if xs != [] {
      assert xs[0] !in xs[1..];
      DistinctAfterOfDistinct(xs[1..], seen + {xs[0]});
    }
  }

  lemma {:induction false} NonEmptyOfTags(xs: seq<string>)
    requires forall i :: 0 <= i < |xs| ==> xs[i] != ""
    ensures NonEmpty(xs) == xs
  {
    if xs != [] {
      NonEmptyOfTags(xs[1..]);
    }
  }

  lemma {:induction false} TrimAllOfTags(xs: seq<string>)
    requires forall i :: 0 <= i < |xs| ==> IsTrimmed(xs[i])
    ensures TrimAll(xs) == xs
  {
    if xs != [] {
      TrimOfTrimmed(xs[0]);
      TrimAllOfTags(xs[1..]);
    }
  }

  lemma NonEmptyHasMember(xs: seq<string>)
    ensures xs == [] || xs[0] in xs
  {
  }

  /** Empty text gives no tags. */
  lemma EmptyTextHasNoTags(empty: string)
    requires empty == ""
    ensures TagList(empty) == []
  {
    NonEmptyHasMember(TagList(empty));
    var pieces := Split(empty, ',');
    assert pieces == [empty];
    TrimOfTrimmed(empty);
    assert TrimAll(pieces) == [empty];
  }

  /** The tags of a normalised text are the tags it was made from. */
  lemma {:induction false} TagListOfNormalized(text: string)
    ensures TagList(NormalizeTags(text)) == TagList(text)
  {
    var tags := TagList(text);
    if tags == [] {
      NoTagsNormalizeToEmpty(text);
      EmptyTextHasNoTags(NormalizeTags(text));
    } else {
      SplitNormalized(text);
      TagsAreFixed(tags);
    }
  }

  /** A proper tag list, split back out of its joined text, is normalised to itself. */
  lemma TagsAreFixed(tags: seq<string>)
    requires SortedBy(tags, NaturalKey) && NoDuplicates(tags)
    requires forall x :: x in tags ==> IsTag(x)
    ensures Split(Join(',', tags), ',') == tags ==> DistinctTags(Join(',', tags)) == tags
    ensures Split(Join(',', tags), ',') == tags ==> TagList(Join(',', tags)) == tags
  {
    if Split(Join(',', tags), ',') == tags {
      DistinctTagsOfTags(tags);
      SortOfSorted(tags, NaturalKey);
    }
  }

  lemma DistinctTagsOfTags(tags: seq<string>)
    requires NoDuplicates(tags)
    requires forall x :: x in tags ==> IsTag(x)
    ensures NonEmpty(Distinct(TrimAll(tags))) == tags
  {
    forall i | 0 <= i < |tags| ensures IsTag(tags[i]) {
      assert tags[i] in tags;
    }
    TrimAllOfTags(tags);
    DistinctAfterOfDistinct(tags, {});
    NonEmptyOfTags(tags);
  }

  /** Normalising the tag fields a second time changes nothing. */
  lemma NormalizeIsIdempotent(text: string)
    ensures NormalizeTags(NormalizeTags(text)) == NormalizeTags(text)
  {
    TagListOfNormalized(text);
  }

  // ---------------------------------------------------------------- validation

  /** The problems `isInputValid` reports, one message each, in the order it checks them. */
  datatype InputError =
    | InvalidRomName
    | DuplicateRomName
    | InvalidRomPath
    | RomPathNotExist
    | InvalidRomConsoles
    | InvalidRomGenres

  /** One check of `isInputValid`: its message when the condition holds. */
  function Check(failed: bool, error: InputError): (errors: seq<InputError>)
    ensures forall e :: e in errors <==> failed && e == error
  {
    if failed then [error] else []
  }

  /** The messages collected for the form's fields, in order. */
  function InputErrors(name: string, existingNames: seq<string>, path: string, pathIsFile: bool,
                       consoles: string, genres: string): (errors: seq<InputError>)
    ensures forall e :: e in errors <==> Fails(e, name, existingNames, path, pathIsFile, consoles, genres)
  {
    var nameErrors := Check(name == "", InvalidRomName) + Check(name in existingNames, DuplicateRomName);
    var pathErrors := if path == "" then [InvalidRomPath] else Check(!pathIsFile, RomPathNotExist);
    var tagErrors := Check(consoles == "", InvalidRomConsoles) + Check(genres == "", InvalidRomGenres);
    assert forall e :: e in nameErrors + pathErrors + tagErrors <==> e in nameErrors || e in pathErrors || e in tagErrors;
    nameErrors + pathErrors + tagErrors
  }

  /** The condition under which each message is reported. */
  predicate Fails(error: InputError, name: string, existingNames: seq<string>, path: string, pathIsFile: bool,
                  consoles: string, genres: string)
  {
    match error
    case InvalidRomName => name == ""
    case DuplicateRomName => name in existingNames
    case InvalidRomPath => path == ""
    case RomPathNotExist => path != "" && !pathIsFile
    case InvalidRomConsoles => consoles == ""
    case InvalidRomGenres => genres == ""
  }

  /**
   * `isInputValid`: no message was collected, that is the name is set and new, the path is set
   * and names an existing file, and both tag fields are set.
   */
  function IsInputValid(name: string, existingNames: seq<string>, path: string, pathIsFile: bool,
                        consoles: string, genres: string): (valid: bool)
    ensures valid <==> name != "" && name !in existingNames && path != "" && pathIsFile
                       && consoles != "" && genres != ""
  {
    var errors := InputErrors(name, existingNames, path, pathIsFile, consoles, genres);
    assert errors != [] ==> errors[0] in errors;
    assert name == "" ==> InvalidRomName in errors;
    assert name in existingNames ==> DuplicateRomName in errors;
    assert path == "" ==> InvalidRomPath in errors;
    assert path != "" && !pathIsFile ==> RomPathNotExist in errors;
    assert consoles == "" ==> InvalidRomConsoles in errors;
    assert genres == "" ==> InvalidRomGenres in errors;
    errors == []
  }

  // ---------------------------------------------------------------- saving

  function RomNames(roms: seq<RomFile>): (names: seq<string>)
    reads set r | r in roms
    ensures |names| == |roms|
    ensures forall i :: 0 <= i < |roms| ==> names[i] == roms[i].name
  {
    if roms == [] then [] else [roms[0].name] + RomNames(roms[1..])
  }

  /** The name of each ROM of the list, as `Comparator.comparing(RomFile::getName)` reads it. */
  function NameMap(roms: seq<RomFile>): (names: map<RomFile, string>)
    reads set r | r in roms
    ensures forall i :: 0 <= i < |roms| ==> roms[i] in names && names[roms[i]] == roms[i].name
  {
    if roms == [] then map[] else NameMap(roms[1..])[roms[0] := roms[0].name]
  }

  function NameKey(names: map<RomFile, string>): RomFile -> string {
    r => if r in names then names[r] else ""
  }

  predicate SortedByName(roms: seq<RomFile>)
    reads set r | r in roms
  {
    forall i, j :: 0 <= i < j < |roms| ==> LessEq(roms[i].name, roms[j].name)
  }

  /**
   * The save handler: both tag fields are normalised in place; then, on valid input, a new ROM
   * with the normalised tags and no launch overrides joins the profile's list, which ends sorted
   * by name. On invalid input the list is left as it was and no ROM is made.
   */
  method Save(profile: UserProfile, name: string, path: string, pathIsFile: bool,
              consolesText: string, genresText: string, favorite: bool)
    returns (consolesField: string, genresField: string, newRom: RomFile?)
    modifies profile`roms
    ensures consolesField == NormalizeTags(consolesText) && genresField == NormalizeTags(genresText)
    ensures IsInputValid(name, old(RomNames(profile.roms)), path, pathIsFile, consolesField, genresField) ==>
      && newRom != null && fresh(newRom)
      && newRom.name == name && newRom.filePath == path && newRom.favorite == favorite
      && newRom.consoles == Split(consolesField, ',') && newRom.genres == Split(genresField, ',')
      && newRom.launchParameters == map[]
      && multiset(profile.roms) == multiset(old(profile.roms)) + multiset{newRom}
      && SortedByName(profile.roms)
    ensures !IsInputValid(name, old(RomNames(profile.roms)), path, pathIsFile, consolesField, genresField) ==>
      newRom == null && profile.roms == old(profile.roms)
  {
    consolesField := NormalizeTags(consolesText);
    genresField := NormalizeTags(genresText);
    newRom := null;
    if IsInputValid(name, RomNames(profile.roms), path, pathIsFile, consolesField, genresField) {
      newRom := new RomFile(name, path, Split(consolesField, ','), Split(genresField, ','), favorite, map[]);
      AddAndSort(profile, newRom);
    }
  }

  /** `getRoms().add(newRom)` followed by `getRoms().sort(Comparator.comparing(RomFile::getName))`. */
  method AddAndSort(profile: UserProfile, rom: RomFile)
    modifies profile`roms
    ensures multiset(profile.roms) == multiset(old(profile.roms)) + multiset{rom}
    ensures SortedByName(profile.roms)
  {
    var roms := profile.roms + [rom];
    var key := NameKey(NameMap(roms));
    var sorted := SortBy(roms, key);
    SortedByKeyIsByName(roms, sorted, key);
    profile.roms := sorted;
  }

  lemma SortedByKeyIsByName(roms: seq<RomFile>, sorted: seq<RomFile>, key: RomFile -> string)
    requires key == NameKey(NameMap(roms))
    requires SortedBy(sorted, key) && multiset(sorted) == multiset(roms)
    ensures SortedByName(sorted)
  {
    forall k | 0 <= k < |sorted|
      ensures key(sorted[k]) == sorted[k].name
    {
      assert sorted[k] in multiset(roms);
      var m :| 0 <= m < |roms| && roms[m] == sorted[k];
    }
  }

  /** The tags stored on a saved ROM are the field's tag list. */
  lemma SavedTagsAreTheTagList(text: string)
    requires NormalizeTags(text) != ""
    ensures Split(NormalizeTags(text), ',') == TagList(text)
  {
    NoTagsNormalizeToEmpty(text);
    SplitNormalized(text);
  }
}
