/**
  The letter-to-audio resolver of app.py (`get_audio_filename`): strip the
  recognised text, look it up in the fixed letter table, build the clip path
  under the audio folder and return it only when that file exists.
  The filesystem is the set of paths that exist.
 */
module Resolver {

  import opened Wrappers
  import PyStr
  import PyDict

  /** Folder holding the pronunciation clips. */
  const AudioFolder: string := "sounds"

  /** Container extension shared by every clip. */
  const Extension: string := ".mp4"

  /** Entry `i` of the letter table as written, in order: the Arabic letter
      (as its code point) and the base name of its clip. */
  function LetterEntry(i: nat): (string, string)
    requires i < 36
  {
    match i
    case 0 => ("\U{0639}", "ain")
    case 1 => ("\U{0627}", "alif")
    case 2 => ("\U{0623}", "alif_hamza_foq")
    case 3 => ("\U{0625}", "alif_hamza_taht")
    case 4 => ("\U{0622}", "alif_madda")
    case 5 => ("\U{0649}", "alif_maqsura")
    case 6 => ("\U{0628}", "baa")
    case 7 => ("\U{0636}", "daad")
    case 8 => ("\U{062F}", "daal")
    case 9 => ("\U{0630}", "dhaal")
    case 10 => ("\U{0641}", "faa")
    case 11 => ("\U{063A}", "ghain")
    case 12 => ("\U{062D}", "haa")
    case 13 => ("\U{0647}", "hah")
    case 14 => ("\U{0621}", "hamza")
    case 15 => ("\U{062C}", "jeem")
    case 16 => ("\U{0643}", "kaaf")
    case 17 => ("\U{062E}", "khaa")
    case 18 => ("\U{0644}", "laam")
    case 19 => ("\U{0645}", "meem")
    case 20 => ("\U{0646}", "noon")
    case 21 => ("\U{0642}", "qaaf")
    case 22 => ("\U{0631}", "raa")
    case 23 => ("\U{0635}", "saad")
    case 24 => ("\U{0633}", "seen")
    case 25 => ("\U{0634}", "sheen")
    case 26 => ("\U{0637}", "taat")
    case 27 => ("\U{0629}", "taa_marbuta")
    case 28 => ("\U{062A}", "taa")
    case 29 => ("\U{062B}", "thaa")
    case 30 => ("\U{0648}", "waw")
    case 31 => ("\U{0624}", "waw_hamza")
    case 32 => ("\U{064A}", "yaa")
    case 33 => ("\U{0626}", "yaa_hamza")
    case 34 => ("\U{0638}", "zaat")
    case 35 => ("\U{0632}", "zay")
    case _ => ("", "")
  }

  /** The 36 entries of the letter table, one per letter. */
  const LetterEntries: seq<(string, string)> := EntriesBefore(36)

  /** The first `n` entries of the letter table. */
  function EntriesBefore(n: nat): seq<(string, string)>
    requires n <= 36
  {
    if n == 0 then [] else EntriesBefore(n - 1) + [LetterEntry(n - 1)]
  }

  /** The "robust matching" entries that close the same literal: four keys
      written a second time. */
  const RepeatedEntries: seq<(string, string)> := [
    ("\U{0623}", "alif_hamza_foq"), ("\U{0625}", "alif_hamza_taht"), ("\U{064A}", "yaa"), ("\U{0626}", "yaa_hamza")
  ]

  /** The dictionary the whole literal evaluates to. */
  const Table: map<string, string> := PyDict.DictOf(LetterEntries + RepeatedEntries)

  /** A clip base name: non-empty lower-case Latin letters and underscores. */
  predicate IsBaseName(s: string)
  {
    |s| > 0 && forall i | 0 <= i < |s| :: 'a' <= s[i] <= 'z' || s[i] == '_'
  }

  /** Where the clip with base name `base` lives: `sounds/<base>.mp4`. */
  function ClipPath(base: string): string
  {
    "sounds/" + base + ".mp4"
  }

  /** The first `n` entries are entries 0 to n - 1, in order. */
  lemma {:induction false} EntriesBeforeInOrder(n: nat)
    requires n <= 36
    ensures |EntriesBefore(n)| == n
    ensures forall i | 0 <= i < n :: EntriesBefore(n)[i] == LetterEntry(i)
  {
    if n > 0 {
      EntriesBeforeInOrder(n - 1);
    }
  }

  /** `LetterEntries` lists the 36 entries in order. */
  lemma EntriesInOrder()
    ensures |LetterEntries| == 36
    ensures forall i | 0 <= i < 36 :: LetterEntries[i] == LetterEntry(i)
  {
    EntriesBeforeInOrder(36);
  }

  /** No letter is written twice (entries 0 to 11 against later ones). */
  lemma KeysDistinctFrom0()
    ensures forall i, j | 0 <= i < 12 && i < j < 36 :: LetterEntry(i).0 != LetterEntry(j).0
  {
  }

  /** No letter is written twice (entries 12 to 23 against later ones). */
  lemma KeysDistinctFrom12()
    ensures forall i, j | 12 <= i < 24 && i < j < 36 :: LetterEntry(i).0 != LetterEntry(j).0
  {
  }

  /** No letter is written twice (entries 24 to 35 against later ones). */
  lemma KeysDistinctFrom24()
    ensures forall i, j | 24 <= i < 36 && i < j < 36 :: LetterEntry(i).0 != LetterEntry(j).0
  {
  }

  /** No letter is written twice among the 36 entries. */
  lemma LetterKeysDistinct()
    ensures PyDict.DistinctKeys(LetterEntries)
  {
    KeysDistinctFrom0();
    KeysDistinctFrom12();
    KeysDistinctFrom24();
    EntriesInOrder();
  }

  /** No base name is used twice (entries 0 to 11 against later ones). */
  lemma BaseNamesDistinctFrom0()
    ensures forall i, j | 0 <= i < 12 && i < j < 36 :: LetterEntry(i).1 != LetterEntry(j).1
  {
  }

  /** No base name is used twice (entries 12 to 23 against later ones). */
  lemma BaseNamesDistinctFrom12()
    ensures forall i, j | 12 <= i < 24 && i < j < 36 :: LetterEntry(i).1 != LetterEntry(j).1
  {
  }

  /** No base name is used twice (entries 24 to 35 against later ones). */
  lemma BaseNamesDistinctFrom24()
    ensures forall i, j | 24 <= i < 36 && i < j < 36 :: LetterEntry(i).1 != LetterEntry(j).1
  {
  }

  /** No base name is used for two letters. */
  lemma BaseNamesDistinct()
    ensures PyDict.DistinctValues(LetterEntries)
  {
    BaseNamesDistinctFrom0();
    BaseNamesDistinctFrom12();
    BaseNamesDistinctFrom24();
    EntriesInOrder();
  }

  /** Arabic letters of the table: hamza (U+0621) to yeh (U+064A). */
  predicate IsArabicLetter(c: char)
  {
    '\U{0621}' <= c <= '\U{064A}'
  }

  /** The base names of the first eighteen entries are well formed. */
  lemma FirstBaseNamesWellFormed()
    ensures forall i | 0 <= i < 18 :: IsBaseName(LetterEntry(i).1)
  {
  }

  /** The base names of the last eighteen entries are well formed. */
  lemma LastBaseNamesWellFormed()
    ensures forall i | 18 <= i < 36 :: IsBaseName(LetterEntry(i).1)
  {
  }

  /** Each letter is one Arabic character and each base name is well formed. */
  lemma LetterEntriesWellFormed()
    ensures forall i | 0 <= i < |LetterEntries| :: |LetterEntries[i].0| == 1 && IsArabicLetter(LetterEntries[i].0[0]) && IsBaseName(LetterEntries[i].1)
  {
    assert forall i | 0 <= i < 36 :: |LetterEntry(i).0| == 1 && IsArabicLetter(LetterEntry(i).0[0]);
    FirstBaseNamesWellFormed();
    LastBaseNamesWellFormed();
    EntriesInOrder();
  }

  /** The repeated entries change nothing: the literal means the same as its
      first 36 entries alone. */
  lemma RepeatsRedundant()
    ensures Table == PyDict.DictOf(LetterEntries)
  {
    LetterKeysDistinct();
    EntriesInOrder();
    assert RepeatedEntries == [LetterEntries[2], LetterEntries[3], LetterEntries[32], LetterEntries[33]];
    PyDict.RepeatsChangeNothing(LetterEntries, RepeatedEntries);
  }

  /** Every entry as written is what the table holds for its letter. */
  lemma TableLookup()
    ensures forall i | 0 <= i < |LetterEntries| :: LetterEntries[i].0 in Table && Table[LetterEntries[i].0] == LetterEntries[i].1
  {
    RepeatsRedundant();
    LetterKeysDistinct();
    PyDict.DistinctLookup(LetterEntries);
  }

  /** The table holds 36 letters. */
  lemma TableSize()
    ensures |Table| == 36
  {
    RepeatsRedundant();
    LetterKeysDistinct();
    EntriesInOrder();
    PyDict.DictOfSize(LetterEntries);
  }

  /** No two letters share a clip. */
  lemma TableInjective()
    ensures PyDict.Injective(Table)
  {
    RepeatsRedundant();
    LetterKeysDistinct();
    BaseNamesDistinct();
    PyDict.DictOfInjective(LetterEntries);
  }

  /** Every key of the table is the letter of one of the 36 entries and
      holds that entry's base name. */
  lemma KeyEntry(k: string) returns (i: nat)
    requires k in Table
    ensures i < 36 && LetterEntry(i) == (k, Table[k])
  {
    RepeatsRedundant();
    PyDict.DictOfKeys(LetterEntries);
    TableLookup();
    EntriesInOrder();
    var ks := PyDict.KeysOf(LetterEntries);
    i :| 0 <= i < |ks| && ks[i] == k;
  }

  /** Every key is a single Arabic letter and every value a well-formed base name. */
  lemma TableWellFormed()
    ensures forall k | k in Table :: |k| == 1 && IsArabicLetter(k[0]) && IsBaseName(Table[k])
  {
    LetterEntriesWellFormed();
    EntriesInOrder();
    forall k | k in Table
      ensures |k| == 1 && IsArabicLetter(k[0]) && IsBaseName(Table[k])
    {
      var i := KeyEntry(k);
      assert LetterEntries[i] == (k, Table[k]);
    }
  }

  /** `os.path.join(dir, name)` for two arguments on a POSIX system. */
  function PathJoin(dir: string, name: string): (p: string)
    ensures |name| > 0 && name[0] == '/' ==> p == name
    ensures |name| <= |p| && p[|p| - |name|..] == name
    ensures !(|name| > 0 && name[0] == '/') ==>
      |dir| + |name| <= |p| <= |dir| + |name| + 1 && p[..|dir|] == dir
    ensures !(|name| > 0 && name[0] == '/') ==>
      (|p| > |dir| + |name| <==> |dir| > 0 && dir[|dir| - 1] != '/')
    ensures !(|name| > 0 && name[0] == '/') && |p| > |dir| + |name| ==> p[|dir|] == '/'
  {
    if |name| > 0 && name[0] == '/' then name
    else if |dir| == 0 || dir[|dir| - 1] == '/' then dir + name
    else dir + "/" + name
  }

  /** Different base names have different clip paths. */
  lemma ClipPathDeterminesBase(x: string, y: string)
    requires ClipPath(x) == ClipPath(y)
    ensures x == y
  {
    assert x == ClipPath(x)[7..|x| + 7];
    assert y == ClipPath(y)[7..|y| + 7];
  }

  /** Joining the audio folder with a base name and the extension gives the
      clip's path. */
  lemma JoinedClipPath(base: string)
    requires IsBaseName(base)
    ensures PathJoin(AudioFolder, base + Extension) == ClipPath(base)
  {
    assert (base + Extension)[0] == base[0];
    assert AudioFolder + "/" == "sounds/";
  }

  /** For every letter of the table, the joined path is its clip path and
      the base name is non-empty. */
  lemma TableClipPaths()
    ensures forall k | k in Table :: Table[k] != "" && PathJoin(AudioFolder, Table[k] + Extension) == ClipPath(Table[k])
  {
    TableWellFormed();
    forall k | k in Table
      ensures Table[k] != "" && PathJoin(AudioFolder, Table[k] + Extension) == ClipPath(Table[k])
    {
      JoinedClipPath(Table[k]);
    }
  }

  /** The steps of `get_audio_filename` over any letter table: the stripped
      text is looked up, a missing or empty base name (`if base_name:` tests
      truthiness) gives nothing, and the joined path is returned only when it
      is in `existing`. */
  function Lookup(table: map<string, string>, letter: string, existing: set<string>): (r: Option<string>)
    ensures r.Some? <==> var key := PyStr.Strip(letter);
      key in table && table[key] != "" && PathJoin(AudioFolder, table[key] + Extension) in existing
    ensures r.Some? ==> r.value in existing
    ensures r.Some? ==> r.value == PathJoin(AudioFolder, table[PyStr.Strip(letter)] + Extension)
  {
    var key := PyStr.Strip(letter);
    var base := PyDict.Get(table, key);
    if base.Some? && base.value != "" then
      var path := PathJoin(AudioFolder, base.value + Extension);
      if path in existing then Some(path) else None
    else
      None
  }

  /** `get_audio_filename(letter)` with `os.path.exists` answered by
      membership in `existing`. The clip is found exactly when the stripped
      letter is in the table and its clip exists, and what is returned is
      that clip's path under the audio folder. */
  function AudioPath(letter: string, existing: set<string>): (r: Option<string>)
    ensures r.Some? <==> PyStr.Strip(letter) in Table && ClipPath(Table[PyStr.Strip(letter)]) in existing
    ensures r.Some? ==> r.value == ClipPath(Table[PyStr.Strip(letter)]) && r.value in existing
  {
    TableClipPaths();
    Lookup(Table, letter, existing)
  }

  /** Over any table, padding the text with whitespace never changes the
      result. */
  lemma {:induction false} LookupIgnoresPadding(table: map<string, string>, a: string, letter: string, b: string, existing: set<string>)
    requires PyStr.AllSpace(a) && PyStr.AllSpace(b)
    ensures Lookup(table, a + letter + b, existing) == Lookup(table, letter, existing)
  {
    PyStr.StripIgnoresPadding(a, letter, b);
  }

  /** Padding the recognised text with whitespace never changes the result. */
  lemma {:induction false} AudioPathIgnoresPadding(a: string, letter: string, b: string, existing: set<string>)
    requires PyStr.AllSpace(a) && PyStr.AllSpace(b)
    ensures AudioPath(a + letter + b, existing) == AudioPath(letter, existing)
  {
    LookupIgnoresPadding(Table, a, letter, b, existing);
  }

  /** Over a table whose base names are well formed and pairwise different,
      two texts that resolve to the same path are the same letter once
      stripped. */
  lemma {:induction false} LookupDeterminesLetter(table: map<string, string>, x: string, y: string, existing: set<string>)
    requires PyDict.Injective(table)
    requires forall k | k in table :: IsBaseName(table[k])
    requires Lookup(table, x, existing).Some? && Lookup(table, x, existing) == Lookup(table, y, existing)
    ensures PyStr.Strip(x) == PyStr.Strip(y)
  {
    var kx, ky := PyStr.Strip(x), PyStr.Strip(y);
    JoinedClipPath(table[kx]);
    JoinedClipPath(table[ky]);
    ClipPathDeterminesBase(table[kx], table[ky]);
  }

  /** A clip path identifies the letter: two texts resolving to the same clip
      are the same letter once stripped. */
  lemma {:induction false} AudioPathDeterminesLetter(x: string, y: string, existing: set<string>)
    requires AudioPath(x, existing).Some? && AudioPath(x, existing) == AudioPath(y, existing)
    ensures PyStr.Strip(x) == PyStr.Strip(y)
  {
    TableInjective();
    TableWellFormed();
    LookupDeterminesLetter(Table, x, y, existing);
  }

  /** A key of the table, stripped or padded, resolves to its own clip
      exactly when that clip exists. */
  lemma {:induction false} KeyResolves(key: string, a: string, b: string, existing: set<string>)
    requires key in Table
    requires PyStr.AllSpace(a) && PyStr.AllSpace(b)
    ensures PyStr.Strip(a + key + b) == key
    ensures var path := ClipPath(Table[key]);
      AudioPath(a + key + b, existing) == if path in existing then Some(path) else None
  {
    TableWellFormed();
    assert |key| == 1 && IsArabicLetter(key[0]);
    assert PyStr.EdgeFree(key);
    PyStr.StripPadded(a, key, b);
    assert PyStr.Strip(a + key + b) == key;
  }

  /** Every letter of the table, stripped or padded, resolves to its own clip
      exactly when that clip exists. */
  lemma {:induction false} LetterResolves(i: nat, a: string, b: string, existing: set<string>)
    requires i < |LetterEntries|
    requires PyStr.AllSpace(a) && PyStr.AllSpace(b)
    ensures var path := ClipPath(LetterEntries[i].1);
      AudioPath(a + LetterEntries[i].0 + b, existing) == if path in existing then Some(path) else None
  {
    TableLookup();
    KeyResolves(LetterEntries[i].0, a, b, existing);
  }

  /** Entry `i` as written is in the table. */
  lemma EntryInTable(i: nat)
    requires i < 36
    ensures LetterEntry(i).0 in Table && Table[LetterEntry(i).0] == LetterEntry(i).1
  {
    TableLookup();
    EntriesInOrder();
    assert LetterEntries[i] == LetterEntry(i);
  }

  /** Beh (U+0628) with a trailing newline resolves to `sounds/baa.mp4` when
      that clip exists, and to nothing in an empty folder. */
  lemma BehResolves()
    ensures AudioPath("\U{0628}\n", {"sounds/baa.mp4"}) == Some("sounds/baa.mp4")
    ensures AudioPath("\U{0628}\n", {}) == None
  {
    var beh := "\U{0628}";
    EntryInTable(6);
    assert LetterEntry(6) == (beh, "baa");
    assert ClipPath("baa") == "sounds/baa.mp4";
    assert [] + beh + "\n" == "\U{0628}\n";
    KeyResolves(beh, [], "\n", {"sounds/baa.mp4"});
    KeyResolves(beh, [], "\n", {});
  }

  /** Text that is empty once stripped, such as an empty reply, resolves to
      no clip whatever files exist. */
  lemma BlankTextHasNoClip(text: string, existing: set<string>)
    requires PyStr.AllSpace(text)
    ensures AudioPath(text, existing) == None
  {
    TableWellFormed();
    assert text + [] + [] == text;
    PyStr.StripPadded(text, [], []);
  }
}
