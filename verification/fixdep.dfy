/** The dependency scanner: a word-at-a-time search for CONFIG_ names against a search of every offset, and the
    hash table that reports each name once. */
module Fixdep {

  const HASHSZ: nat := 256

  // ----- the search of every offset -----

  /** isalnum or an underscore. */
  predicate NameChar(c: char) {
    'a' <= c <= 'z' || 'A' <= c <= 'Z' || '0' <= c <= '9' || c == '_'
  }

  /** In ASCII codes. */
  lemma NameCharCodes(c: char)
    ensures NameChar(c) <==> 48 <= c as int <= 57 || 65 <= c as int <= 90 || c as int == 95 || 97 <= c as int <= 122
  {
  }

  /** The end of the name that starts at `q`; the length of the text if it does not end before it. */
  function NameEnd(text: string, q: nat): (r: nat)
    requires q <= |text|
    ensures q <= r <= |text| && (r < |text| ==> !NameChar(text[r]))
    ensures forall i :: q <= i < r ==> NameChar(text[i])
    decreases |text| - q
  {
    if q == |text| || !NameChar(text[q]) then q else NameEnd(text, q + 1)
  }

  predicate Occurs(text: string, o: nat) {
    o + 7 <= |text| && text[o..o + 7] == "CONFIG_"
  }

  /** What is used by the word from `o` up to `q`: the name without CONFIG_ and without a trailing _MODULE,
      nothing when the two overlap. */
  function Stripped(text: string, o: nat, q: nat): seq<string>
    requires o + 7 <= q <= |text|
  {
    if text[q - 7..q] != "_MODULE" then [text[o + 7..q]]
    else if q - 7 < o + 7 then []
    else [text[o + 7..q - 7]]
  }

  function UsesAt(text: string, o: nat): seq<string> {
    if !Occurs(text, o) then []
    else
      var q := NameEnd(text, o + 7);
      if q == |text| then [] else Stripped(text, o, q)
  }

  function Uses(text: string, from: nat): seq<string>
    decreases |text| - from
  {
    if from >= |text| then [] else UsesAt(text, from) + Uses(text, from + 1)
  }

  /** A name is used exactly when some occurrence at offset `from` or later ends before the end of the text in
      that name, optionally followed by _MODULE. */
  lemma {:induction false} UsesMeaning(text: string, from: nat, name: string)
    ensures name in Uses(text, from) <==>
      exists o, q | from <= o && o + 7 <= q < |text| :: Word(text, o, q) && Names(text[o + 7..q], name)
    decreases |text| - from
  {
    hide UsesAt, Word, Names;
    if from < |text| {
      UsesMeaning(text, from + 1, name);
      UsesAtMeaning(text, from, name);
    }
  }

  /** The text from `o` to `q` is CONFIG_ and a maximal run of name characters. */
  predicate Word(text: string, o: nat, q: nat)
    requires o + 7 <= q < |text|
  {
    Occurs(text, o) && !NameChar(text[q]) && forall i :: o + 7 <= i < q ==> NameChar(text[i])
  }

  predicate EndsInModule(rest: string) {
    |rest| >= 7 && rest[|rest| - 7..] == "_MODULE"
  }

  /** What the part after CONFIG_ names: MODULE alone is not a name. */
  predicate Names(rest: string, name: string) {
    if EndsInModule(rest) then rest == name + "_MODULE" else rest == name && rest != "MODULE"
  }

  lemma UsesAtMeaning(text: string, o: nat, name: string)
    ensures name in UsesAt(text, o) <==>
      exists q | o + 7 <= q < |text| :: Word(text, o, q) && Names(text[o + 7..q], name)
  {
    if Occurs(text, o) {
      var end := NameEnd(text, o + 7);
      if end < |text| {
        assert Word(text, o, end);
        StripMeaning(text, o, end, name);
      }
      forall q | o + 7 <= q < |text| && Word(text, o, q) ensures q == end {
      }
    }
  }

  lemma StripMeaning(text: string, o: nat, q: nat, name: string)
    requires o + 7 <= q < |text| && Occurs(text, o)
    ensures name in Stripped(text, o, q) <==> Names(text[o + 7..q], name)
  {
    var rest := text[o + 7..q];
    if |rest| >= 7 {
      assert text[q - 7..q] == rest[|rest| - 7..];
      assert text[o + 7..q - 7] == rest[..|rest| - 7];
      assert (name + "_MODULE")[..|name|] == name;
      assert rest == rest[..|rest| - 7] + rest[|rest| - 7..];
    } else if |rest| == 6 {
      assert text[o..o + 7][6] == '_';
      assert text[q - 7..q] == "_" + rest;
      assert "_MODULE" == "_" + "MODULE";
      assert (("_" + rest)[1..]) == rest;
    } else {
      assert text[q - 7..q][0] == text[o..o + 7][|rest|];
    }
  }

  // ----- the hash table -----

  /** fnv32 */
  function StrHash(s: string): bv32 {
    if s == "" then 2166136261
    else (StrHash(s[..|s| - 1]) ^ ((s[|s| - 1] as int) as bv32)) * 0x01000193
  }

  function Bucket(s: string): nat {
    (StrHash(s) % 256) as nat
  }

  datatype Item = Item(name: string, hash: bv32)

  /** Adding names in order, each only when it is not there yet. */
  function AddAll(names: seq<string>, more: seq<string>): seq<string>
    decreases |more|
  {
    if more == [] then names
    else AddAll(if more[0] in names then names else names + [more[0]], more[1..])
  }

  lemma {:induction false} AddAllOnce(names: seq<string>, more: seq<string>)
    requires forall i, j :: 0 <= i < j < |names| ==> names[i] != names[j]
    ensures forall i, j :: 0 <= i < j < |AddAll(names, more)| ==> AddAll(names, more)[i] != AddAll(names, more)[j]
    ensures forall name :: name in AddAll(names, more) <==> name in names || name in more
    decreases |more|
  {
    if more != [] {
      AddAllOnce(if more[0] in names then names else names + [more[0]], more[1..]);
      assert more == [more[0]] + more[1..];
    }
  }

  lemma {:induction false} AddAllAppend(names: seq<string>, a: seq<string>, b: seq<string>)
    ensures AddAll(names, a + b) == AddAll(AddAll(names, a), b)
    decreases |a|
  {
    if a == [] {
      assert a + b == b;
    } else {
      assert a + b == [a[0]] + (a[1..] + b);
      AddAllAppend(if a[0] in names then names else names + [a[0]], a[1..], b);
    }
  }

  lemma AddNothing(names: seq<string>)
    ensures AddAll(names, []) == names
  {
  }

  /** What a scan of one file reports, from an empty table: every name of an occurrence past the first offset that
      ends before the text does, nothing else, and none twice. */
  lemma ScanMeaning(text: string, name: string)
    ensures name in AddAll([], Uses(text, 1)) <==>
      exists o, q | 1 <= o && o + 7 <= q < |text| :: Word(text, o, q) && Names(text[o + 7..q], name)
    ensures multiset(AddAll([], Uses(text, 1)))[name] <= 1
  {
    UsesMeaning(text, 1, name);
    AddAllOnce([], Uses(text, 1));
    OnceInMultiset(AddAll([], Uses(text, 1)), name);
  }

  lemma {:induction false} OnceInMultiset(names: seq<string>, name: string)
    requires forall i, j :: 0 <= i < j < |names| ==> names[i] != names[j]
    ensures multiset(names)[name] <= 1 && (multiset(names)[name] == 1 <==> name in names)
  {
    if names != [] {
      OnceInMultiset(names[1..], name);
      assert names == [names[0]] + names[1..];
    }
  }

  /** A name at the very start of a file is missed. */
  lemma FirstOffsetMissed()
    ensures UsesAt("CONFIG_A;", 0) == ["A"] && Uses("CONFIG_A;", 1) == []
  {
    var text := "CONFIG_A;";
    assert text[0..7] == "CONFIG_";
    assert NameEnd(text, 7) == 8;
    assert text[1..8] == "ONFIG_A";
    assert text[1..8][0] == 'O' && "_MODULE"[0] == '_';
    assert text[7..8] == "A";
    assert text[2..9][0] == 'N';
    assert text[1..8][0] != "CONFIG_"[0] && text[2..9][0] != "CONFIG_"[0];
    UsesNone(text, 3);
    UsesUnfold(text, 2);
    UsesUnfold(text, 1);
  }

  function ToLower(c: char): char {
    if 'A' <= c <= 'Z' then c - 'A' + 'a' else c
  }

  lemma ToLowerCodes(c: char)
    ensures ToLower(c) as int == if 65 <= c as int <= 90 then c as int + 32 else c as int
  {
  }

  function Lower(s: string): (r: string)
    ensures |r| == |s| && forall i :: 0 <= i < |s| ==> r[i] == ToLower(s[i])
  {
    if s == "" then "" else Lower(s[..|s| - 1]) + [ToLower(s[|s| - 1])]
  }

  /** The lines of two names are the same exactly when the names differ in case at most, although they are told apart
      when names are recorded. */
  lemma SameLine(a: string, b: string)
    ensures Line(a) == Line(b) <==> |a| == |b| && forall i :: 0 <= i < |a| ==> ToLower(a[i]) == ToLower(b[i])
  {
    var before, after := "    $(wildcard include/config/", ".h) \\\n";
    assert Line(a)[|before|..|Line(a)| - |after|] == Lower(a);
    assert Line(b)[|before|..|Line(b)| - |after|] == Lower(b);
    if |a| == |b| && forall i :: 0 <= i < |a| ==> ToLower(a[i]) == ToLower(b[i]) {
      assert Lower(a) == Lower(b);
    }
    if Line(a) == Line(b) {
      forall i | 0 <= i < |a| ensures |a| == |b| && ToLower(a[i]) == ToLower(b[i]) {
        assert Lower(a)[i] == ToLower(a[i]) && Lower(b)[i] == ToLower(b[i]);
      }
      assert |Line(a)| == |before| + |a| + |after| && |Line(b)| == |before| + |b| + |after|;
    }
  }

  function Line(name: string): string {
    "    $(wildcard include/config/" + Lower(name) + ".h) \\\n"
  }

  function Lines(names: seq<string>): string {
    if names == [] then "" else Lines(names[..|names| - 1]) + Line(names[|names| - 1])
  }

  // ----- the words -----

  function At(text: string, i: nat): char {
    if i < |text| then text[i] else '\0' // the mapping is padded with zeros
  }

  function WordAt(text: string, m: nat): string {
    [At(text, m), At(text, m + 1), At(text, m + 2), At(text, m + 3)]
  }

  /** How far into CONFIG_ the word is, if it can be part of it at all. */
  function Shift(word: string): nat {
    if word == "CONF" then 0
    else if word == "ONFI" then 1
    else if word == "NFIG" then 2
    else if word == "FIG_" then 3
    else 4
  }

  /** Of the four occurrences that reach the word at `m`, the word itself picks the only one possible. */
  lemma WordDecides(text: string, m: nat, o: nat)
    requires o <= m <= o + 3 && Occurs(text, o)
    ensures Shift(WordAt(text, m)) == m - o
  {
    var c := text[o..o + 7];
    assert forall i :: 0 <= i < 7 ==> text[o + i] == c[i];
    assert WordAt(text, m) == [c[m - o], c[m - o + 1], c[m - o + 2], c[m - o + 3]];
  }

  lemma UsesUnfold(text: string, o: nat)
    ensures Uses(text, o) == UsesAt(text, o) + Uses(text, o + 1)
  {
  }

  lemma {:induction false} UsesNone(text: string, from: nat)
    requires |text| < from + 7
    ensures Uses(text, from) == []
    decreases |text| - from
  {
    if from < |text| {
      UsesNone(text, from + 1);
    }
  }

  lemma WindowUses(text: string, m: nat)
    requires m >= 3
    ensures Uses(text, m - 3) ==
      (if Shift(WordAt(text, m)) < 4 then UsesAt(text, m - Shift(WordAt(text, m))) else []) + Uses(text, m + 1)
  {
    hide UsesAt, Uses, WordAt, Shift;
    forall o: nat | m - 3 <= o <= m && m - o != Shift(WordAt(text, m)) ensures UsesAt(text, o) == [] {
      NoUse(text, m, o);
    }
    UsesUnfold(text, m - 3);
    UsesUnfold(text, m - 2);
    UsesUnfold(text, m - 1);
    UsesUnfold(text, m);
  }

  lemma NoUse(text: string, m: nat, o: nat)
    requires o <= m <= o + 3 && Shift(WordAt(text, m)) != m - o
    ensures UsesAt(text, o) == []
  {
    if Occurs(text, o) {
      WordDecides(text, m, o);
    }
  }

  // ----- the code -----

  class Scanner {
    const hashtab: array<seq<Item>>
    var output: string
    ghost var used: seq<string>

    /** Each name used is in the chain of its bucket, and nothing else is. */
    ghost predicate Recorded()
      reads this, hashtab
    {
      && hashtab.Length == HASHSZ
      && (forall b, i :: 0 <= b < HASHSZ && 0 <= i < |hashtab[b]| ==> InPlace(hashtab[b][i], b))
      && (forall name :: name in used ==> Item(name, StrHash(name)) in hashtab[Bucket(name)])
    }

    ghost predicate InPlace(item: Item, b: nat)
      reads this
    {
      item.name in used && item.hash == StrHash(item.name) && Bucket(item.name) == b
    }

    ghost predicate Valid()
      reads this, hashtab
    {
      Recorded() && output == Lines(used)
    }

    constructor ()
      ensures Valid() && fresh(hashtab) && used == [] && output == ""
    {
      hashtab := new seq<Item>[HASHSZ](_ => []);
      output, used := "", [];
    }

    /** is_defined_config: the answer does not depend on how names share buckets or hashes. */
    method IsDefined(name: string, hash: bv32) returns (r: bool)
      requires Valid() && hash == StrHash(name)
      ensures r <==> name in used
    {
      hide StrHash, Lines;
      var chain := hashtab[Bucket(name)];
      var i := 0;
      while i < |chain|
        invariant i <= |chain|
        invariant forall j :: 0 <= j < i ==> chain[j].name != name
      {
        if chain[i].hash == hash && chain[i].name == name {
          return true;
        }
        i := i + 1;
      }
      return false;
    }

    /** define_config */
    method Define(name: string, hash: bv32)
      requires Recorded() && hash == StrHash(name)
      modifies this`used, hashtab
      ensures Recorded() && used == old(used) + [name]
    {
      hide StrHash;
      var b := Bucket(name);
      hashtab[b] := [Item(name, hash)] + hashtab[b];
      used := used + [name];
    }

    /** The lines use_config prints. */
    method PrintUse(name: string)
      modifies this`output
      ensures output == old(output) + Line(name)
    {
      output := output + "    $(wildcard include/config/";
      var i := 0;
      assert name[..0] == "";
      while i < |name|
        invariant i <= |name|
        invariant output == old(output) + "    $(wildcard include/config/" + Lower(name[..i])
      {
        assert name[..i + 1][..i] == name[..i];
        output := output + [ToLower(name[i])];
        i := i + 1;
      }
      assert name[..|name|] == name;
      output := output + ".h) \\\n";
    }

    /** use_config */
    method Use(name: string)
      requires Valid()
      modifies this, hashtab
      ensures Valid()
      ensures used == AddAll(old(used), [name])
    {
      hide Line, StrHash;
      var hash := StrHash(name);
      var defined := IsDefined(name, hash);
      if defined {
        return;
      }
      Define(name, hash);
      PrintUse(name);
      assert used[..|used| - 1] == old(used);
    }

    /** The part of parse_config_file after a word has given a place to look at. */
    method Look(text: string, p: nat)
      requires Valid()
      modifies this, hashtab
      ensures Valid() && used == AddAll(old(used), UsesAt(text, p))
    {
      hide Recorded, Lines, AddAll, StrHash;
      AddNothing(used);
      if p + 7 > |text| {
        return;
      }
      if text[p..p + 7] != "CONFIG_" {
        return;
      }
      var q := p + 7;
      while q < |text| && NameChar(text[q])
        invariant p + 7 <= q <= |text| && NameEnd(text, p + 7) == NameEnd(text, q)
      {
        q := q + 1;
      }
      if q == |text| {
        return;
      }
      if text[q - 7..q] == "_MODULE" {
        q := q - 7;
      }
      if q - p - 7 < 0 {
        return;
      }
      Use(text[p + 7..q]);
    }

    /** parse_config_file: the same names as a search of every offset but the first, each added once. */
    method ParseConfigFile(text: string)
      requires Valid()
      modifies this, hashtab
      ensures Valid() && used == AddAll(old(used), Uses(text, 1))
    {
      hide Uses, UsesAt, WordAt, Shift, AddAll;
      var m := 4;
      ghost var all := AddAll(used, Uses(text, 1));
      while m < |text|
        invariant m >= 4 && Valid()
        invariant AddAll(used, Uses(text, m - 3)) == all
      {
        WindowUses(text, m);
        assert [] + Uses(text, m + 1) == Uses(text, m + 1);
        var shift := Shift(WordAt(text, m));
        if shift < 4 {
          AddAllAppend(used, UsesAt(text, m - shift), Uses(text, m + 1));
          Look(text, m - shift);
        }
        m := m + 4;
      }
      UsesNone(text, m - 3);
      AddNothing(used);
    }
  }
}
