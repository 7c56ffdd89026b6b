/** Classification and transliteration of file names
    (clipack/file_sorter.py). A file is represented by its name, the final
    component of its path, split into stem and suffix the way `pathlib`
    does. */
module FileSort {
  import opened Base
  import opened Text
  import opened Seqs

  // ---------------------------------------------------------------------
  // The tables

  /** `file_types`: the categories in their dictionary order, each with its
      upper-case extensions. */
  const FileTypes: seq<(string, seq<string>)> := [
    ("audio", ["MP3", "OGG", "WAV", "AMR"]),
    ("archives", ["ZIP", "GZ", "TAR"]),
    ("documents", ["DOC", "DOCX", "TXT", "PDF", "XLSX", "PPTX"]),
    ("images", ["BMP", "WEBP", "JPEG", "PNG", "JPG", "SVG"]),
    ("video", ["AVI", "MP4", "MOV", "MKV"]),
    ("others", [])
  ]

  const Others: string := "others"

  /** `transliterate_map`, in the four groups its source lists: Russian
      lower case, Russian upper case, then the additional Ukrainian lower
      and upper case letters. The hard and soft signs map to "". */
  const RussianLower: map<char, string> := map[
      '\U{0430}' := "a", '\U{0431}' := "b", '\U{0432}' := "v", '\U{0433}' := "g",
      '\U{0434}' := "d", '\U{0435}' := "e", '\U{0451}' := "e", '\U{0436}' := "zh",
      '\U{0437}' := "z", '\U{0438}' := "i", '\U{0439}' := "y", '\U{043A}' := "k",
      '\U{043B}' := "l", '\U{043C}' := "m", '\U{043D}' := "n", '\U{043E}' := "o",
      '\U{043F}' := "p", '\U{0440}' := "r", '\U{0441}' := "s", '\U{0442}' := "t",
      '\U{0443}' := "u", '\U{0444}' := "f", '\U{0445}' := "kh", '\U{0446}' := "ts",
      '\U{0447}' := "ch", '\U{0448}' := "sh", '\U{0449}' := "sch", '\U{044A}' := "",
      '\U{044B}' := "y", '\U{044C}' := "", '\U{044D}' := "e", '\U{044E}' := "yu",
      '\U{044F}' := "ya"
  ]

  const RussianUpper: map<char, string> := map[
      '\U{0410}' := "A", '\U{0411}' := "B", '\U{0412}' := "V", '\U{0413}' := "G",
      '\U{0414}' := "D", '\U{0415}' := "E", '\U{0401}' := "E", '\U{0416}' := "Zh",
      '\U{0417}' := "Z", '\U{0418}' := "I", '\U{0419}' := "Y", '\U{041A}' := "K",
      '\U{041B}' := "L", '\U{041C}' := "M", '\U{041D}' := "N", '\U{041E}' := "O",
      '\U{041F}' := "P", '\U{0420}' := "R", '\U{0421}' := "S", '\U{0422}' := "T",
      '\U{0423}' := "U", '\U{0424}' := "F", '\U{0425}' := "Kh", '\U{0426}' := "Ts",
      '\U{0427}' := "Ch", '\U{0428}' := "Sh", '\U{0429}' := "Sch", '\U{042A}' := "",
      '\U{042B}' := "Y", '\U{042C}' := "", '\U{042D}' := "E", '\U{042E}' := "Yu",
      '\U{042F}' := "Ya"
  ]

  const UkrainianLower: map<char, string> := map[
      '\U{0491}' := "g", '\U{0454}' := "ye", '\U{0457}' := "yi", '\U{0456}' := "i"
  ]

  const UkrainianUpper: map<char, string> := map[
      '\U{0490}' := "G", '\U{0404}' := "Ye", '\U{0407}' := "Yi", '\U{0406}' := "I"
  ]

  const Translit: map<char, string> := RussianLower + RussianUpper + UkrainianLower + UkrainianUpper

  /** A table entry: the letter is Cyrillic (so neither an ASCII letter, a
      digit nor '_'), and its image is at most three ASCII letters, empty
      only for the hard and soft signs. */
  predicate Entry(c: char, v: string) {
    && IsCyrillicLetter(c)
    && |v| <= 3
    && (forall k :: 0 <= k < |v| ==> IsAsciiLetter(v[k]))
    && (v == [] <==> c in {'\U{044A}', '\U{044C}', '\U{042A}', '\U{042C}'})
  }

  lemma RussianLowerEntries(c: char)
    requires c in RussianLower
    ensures Entry(c, RussianLower[c])
  {
    if c < '\U{0438}' {
    } else if c < '\U{0440}' {
    } else if c < '\U{0448}' {
    } else {
    }
  }

  lemma RussianUpperEntries(c: char)
    requires c in RussianUpper
    ensures Entry(c, RussianUpper[c])
  {
    if c < '\U{0418}' {
    } else if c < '\U{0420}' {
    } else if c < '\U{0428}' {
    } else {
    }
  }

  lemma UkrainianLowerEntries(c: char)
    requires c in UkrainianLower
    ensures Entry(c, UkrainianLower[c])
  {
  }

  lemma UkrainianUpperEntries(c: char)
    requires c in UkrainianUpper
    ensures Entry(c, UkrainianUpper[c])
  {
  }

  /** Every entry of the whole table is well formed. */
  lemma TranslitEntry(c: char)
    requires c in Translit
    ensures Entry(c, Translit[c])
  {
    if c in UkrainianUpper {
      UkrainianUpperEntries(c);
    } else if c in UkrainianLower {
      UkrainianLowerEntries(c);
    } else if c in RussianUpper {
      RussianUpperEntries(c);
    } else {
      RussianLowerEntries(c);
    }
  }

  /** Every listed extension is at least two upper-case ASCII letters or
      digits, starting with a letter. */
  lemma ExtensionsUpper()
    ensures forall i, k :: 0 <= i < |FileTypes| && 0 <= k < |FileTypes[i].1| ==>
      |FileTypes[i].1[k]| >= 2 && IsAsciiUpper(FileTypes[i].1[k][0])
    ensures forall i, k, m :: 0 <= i < |FileTypes| && 0 <= k < |FileTypes[i].1| && 0 <= m < |FileTypes[i].1[k]| ==>
      IsAsciiUpper(FileTypes[i].1[k][m]) || IsAsciiDigit(FileTypes[i].1[k][m])
  {
  }

  /** No extension belongs to two categories. */
  lemma CategoriesDisjoint()
    ensures forall i, j, e :: 0 <= i < j < |FileTypes| && e in FileTypes[i].1 ==> e !in FileTypes[j].1
  {
  }

  // ---------------------------------------------------------------------
  // pathlib's split of a name

  /** The position of the last '.', or -1. */
  function LastDot(name: string): (i: int)
    ensures -1 <= i < |name|
    ensures i >= 0 ==> name[i] == '.'
    ensures forall k :: i < k < |name| ==> name[k] != '.'
  {
    if name == [] then -1
    else if name[|name| - 1] == '.' then |name| - 1
    else LastDot(name[..|name| - 1])
  }

  /** A suffix exists when the last dot is neither the first nor the last
      character. */
  predicate HasSuffix(name: string) {
    0 < LastDot(name) < |name| - 1
  }

  /** `PurePath.suffix`. */
  function Suffix(name: string): (s: string)
    ensures s == [] || (|s| >= 2 && s[0] == '.')
    ensures forall k :: 0 < k < |s| ==> s[k] != '.'
  {
    if HasSuffix(name) then name[LastDot(name)..] else []
  }

  /** `PurePath.stem`. */
  function Stem(name: string): (s: string)
  {
    if HasSuffix(name) then name[..LastDot(name)] else name
  }

  /** Stem and suffix rebuild the name; a name with a suffix has a
      non-empty stem. */
  lemma StemSuffixSplit(name: string)
    ensures Stem(name) + Suffix(name) == name
    ensures Suffix(name) != [] ==> Stem(name) != []
  {
  }

  /** A name with a dot-free, non-empty stem and a suffix splits back
      into exactly those. */
  lemma {:induction false} SplitOfJoin(x: string, suf: string)
    requires x != [] && forall k :: 0 <= k < |x| ==> x[k] != '.'
    requires |suf| >= 2 && suf[0] == '.' && forall k :: 0 < k < |suf| ==> suf[k] != '.'
    ensures Stem(x + suf) == x && Suffix(x + suf) == suf
  {
    var n := x + suf;
    assert n[|x|] == '.';
    assert forall k :: |x| < k < |n| ==> n[k] == suf[k - |x|];
    assert LastDot(n) == |x|;
  }

  /** A name without dots is all stem. */
  lemma NoDotAllStem(x: string)
    requires forall k :: 0 <= k < |x| ==> x[k] != '.'
    ensures Stem(x) == x && Suffix(x) == []
  {
  }

  // ---------------------------------------------------------------------
  // normalize

  /** A table all of whose entries are well formed. The normaliser's
      lemmas hold for any such table; `Translit` is one. */
  predicate TableOk(table: map<char, string>) {
    forall c :: c in table ==> Entry(c, table[c])
  }

  lemma TranslitOk()
    ensures TableOk(Translit)
  {
    forall c | c in Translit
      ensures Entry(c, Translit[c])
    {
      TranslitEntry(c);
    }
  }

  /** The image of one stem character: digits and ASCII letters are kept,
      a letter of the table is transliterated, anything else becomes
      "_". */
  function CharImage(table: map<char, string>, c: char): string
  {
    if IsAsciiDigit(c) || IsAsciiUpper(c) || IsAsciiLower(c) then [c]
    else if c in table then table[c]
    else "_"
  }

  /** The image is made of ASCII letters, digits and '_', it is empty only
      for the hard and soft signs, it is the character itself for an ASCII
      letter, a digit or '_', the table's entry for any other character the
      table has, and "_" for the rest. */
  lemma CharImageShape(table: map<char, string>, c: char)
    requires TableOk(table)
    ensures |CharImage(table, c)| <= 3
    ensures forall k :: 0 <= k < |CharImage(table, c)| ==>
      IsAsciiAlnum(CharImage(table, c)[k]) || CharImage(table, c)[k] == '_'
    ensures CharImage(table, c) == [] <==>
      c in table && c in {'\U{044A}', '\U{044C}', '\U{042A}', '\U{042C}'}
    ensures IsAsciiAlnum(c) || c == '_' ==> CharImage(table, c) == [c]
    ensures !IsAsciiAlnum(c) && c in table ==> CharImage(table, c) == table[c]
    ensures !IsAsciiAlnum(c) && c !in table ==> CharImage(table, c) == "_"
  {
  }

  /** The normalised stem: the images of its characters, in order. */
  function NormStem(table: map<char, string>, s: string): string
  {
    if s == [] then [] else CharImage(table, s[0]) + NormStem(table, s[1..])
  }

  /** One more character of the stem adds its image. */
  lemma NormStemSnoc(table: map<char, string>, s: string, i: int)
    requires 0 <= i < |s|
    ensures NormStem(table, s[..i + 1]) == NormStem(table, s[..i]) + CharImage(table, s[i])
  {
    assert s[..i + 1] == s[..i] + [s[i]];
    NormStemConcat(table, s[..i], [s[i]]);
    assert [s[i]][1..] == [];
  }

  /** Normalising is a homomorphism on concatenation. */
  lemma {:induction false} NormStemConcat(table: map<char, string>, a: string, b: string)
    ensures NormStem(table, a + b) == NormStem(table, a) + NormStem(table, b)
    decreases |a|
  {
    if a == [] {
      assert a + b == b;
    } else {
      assert (a + b)[0] == a[0] && (a + b)[1..] == a[1..] + b;
      NormStemConcat(table, a[1..], b);
    }
  }

  /** Every output character is an ASCII letter, a digit or '_'. */
  lemma {:induction false} NormStemChars(table: map<char, string>, s: string)
    requires TableOk(table)
    ensures forall k :: 0 <= k < |NormStem(table, s)| ==>
      IsAsciiAlnum(NormStem(table, s)[k]) || NormStem(table, s)[k] == '_'
    decreases |s|
  {
    if s != [] {
      NormStemChars(table, s[1..]);
      CharImageShape(table, s[0]);
      var h := CharImage(table, s[0]);
      var p := NormStem(table, s[1..]);
      assert forall k :: |h| <= k < |h + p| ==> (h + p)[k] == p[k - |h|];
    }
  }

  /** A stem made of ASCII letters, digits and '_' is left as it is. */
  lemma {:induction false} NormStemFixed(table: map<char, string>, s: string)
    requires TableOk(table)
    requires forall k :: 0 <= k < |s| ==> IsAsciiAlnum(s[k]) || s[k] == '_'
    ensures NormStem(table, s) == s
    decreases |s|
  {
    if s != [] {
      NormStemFixed(table, s[1..]);
      CharImageShape(table, s[0]);
      assert s == [s[0]] + s[1..];
    }
  }

  /** `normalize(file, with_ext)` as a value: a hidden name is returned as
      it is, otherwise the normalised stem, followed by the unchanged
      suffix when `withExt` holds. */
  function NormalizeName(table: map<char, string>, name: string, withExt: bool): string
  {
    if |name| > 0 && name[0] == '.' then name
    else NormStem(table, Stem(name)) + (if withExt then Suffix(name) else [])
  }

  /** Hidden names are unchanged; otherwise the extension, when kept, is
      the original suffix, and what precedes it is made of ASCII letters,
      digits and '_'. */
  lemma NormalizeNameShape(table: map<char, string>, name: string, withExt: bool)
    requires TableOk(table)
    ensures |name| > 0 && name[0] == '.' ==> NormalizeName(table, name, withExt) == name
    ensures !(|name| > 0 && name[0] == '.') ==>
      NormalizeName(table, name, true) == NormalizeName(table, name, false) + Suffix(name)
    ensures !(|name| > 0 && name[0] == '.') ==>
      forall k :: 0 <= k < |NormalizeName(table, name, false)| ==>
        IsAsciiAlnum(NormalizeName(table, name, false)[k]) || NormalizeName(table, name, false)[k] == '_'
  {
    NormStemChars(table, Stem(name));
  }

  /** Normalising a normalised name changes nothing. */
  lemma NormalizeIdempotent(table: map<char, string>, name: string, withExt: bool)
    requires TableOk(table)
    ensures NormalizeName(table, NormalizeName(table, name, withExt), withExt) == NormalizeName(table, name, withExt)
  {
    if !(|name| > 0 && name[0] == '.') {
      var x := NormStem(table, Stem(name));
      NormStemChars(table, Stem(name));
      assert forall k :: 0 <= k < |x| ==> x[k] != '.';
      var suf := if withExt then Suffix(name) else [];
      var r := x + suf;
      assert r == NormalizeName(table, name, withExt);
      if x == [] {
        assert r == suf;
      } else {
        assert r[0] == x[0];
        NormalizeJoin(table, x, suf);
      }
    }
  }

  /** The step of `NormalizeIdempotent` once the pieces are known. */
  lemma NormalizeJoin(table: map<char, string>, x: string, suf: string)
    requires TableOk(table)
    requires x != [] && forall k :: 0 <= k < |x| ==> IsAsciiAlnum(x[k]) || x[k] == '_'
    requires suf == [] || (|suf| >= 2 && suf[0] == '.' && forall k :: 0 < k < |suf| ==> suf[k] != '.')
    ensures NormalizeName(table, x + suf, suf != []) == x + suf
  {
    NormStemFixed(table, x);
    assert (x + suf)[0] == x[0];
    if suf == [] {
      assert x + suf == x;
      NoDotAllStem(x);
    } else {
      SplitOfJoin(x, suf);
    }
  }

  // ---------------------------------------------------------------------
  // find_file_type

  /** The extension looked up: the whole name of a hidden file, else the
      suffix without its dot. */
  function Extension(name: string): string
  {
    if |name| > 0 && name[0] == '.' then name
    else if Suffix(name) == [] then []
    else Suffix(name)[1..]
  }

  /** The last category of `types` whose list holds `e`, as the loop over
      the dictionary leaves it. */
  function LastMatch(types: seq<(string, seq<string>)>, e: string): (r: Option<string>)
    ensures r.None? <==> forall i :: 0 <= i < |types| ==> e !in types[i].1
    ensures r.Some? ==> exists i :: 0 <= i < |types| && e in types[i].1 && types[i].0 == r.value
  {
    if types == [] then None
    else if e in types[|types| - 1].1 then Some(types[|types| - 1].0)
    else LastMatch(types[..|types| - 1], e)
  }

  /** The category of an upper-cased extension. */
  function Category(e: string): string
  {
    match LastMatch(FileTypes, e)
    case Some(c) => c
    case None => Others
  }

  /** An extension listed under a category has that category; one listed
      nowhere is "others". */
  lemma CategoryIff(e: string)
    ensures forall i :: 0 <= i < |FileTypes| && e in FileTypes[i].1 ==> Category(e) == FileTypes[i].0
    ensures Category(e) == Others <==> forall i :: 0 <= i < |FileTypes| ==> e !in FileTypes[i].1
  {
    CategoriesDisjoint();
    var r := LastMatch(FileTypes, e);
    if r.Some? {
      var i :| 0 <= i < |FileTypes| && e in FileTypes[i].1 && FileTypes[i].0 == r.value;
      assert i != 5;
    }
  }

  /** A name `x.e` with dot-free, non-empty `x` and `e` has extension
      `e`, and a hidden name is its own extension. */
  lemma ExtensionOfName(x: string, e: string)
    requires x != [] && forall k :: 0 <= k < |x| ==> x[k] != '.'
    requires e != [] && forall k :: 0 <= k < |e| ==> e[k] != '.'
    ensures Extension(x + "." + e) == e
    ensures Extension("." + x) == "." + x
  {
    var suf := "." + e;
    assert forall k :: 0 < k < |suf| ==> suf[k] == e[k - 1];
    SplitOfJoin(x, suf);
    assert x + "." + e == x + suf;
    assert suf[1..] == e;
  }

  /** An illustration: classification looks the extension up as it is, so
      it must be upper-cased first. */
  lemma CategoryExamples()
    ensures Category("MP3") == "audio"
    ensures Category("GZ") == "archives"
    ensures Category("mp3") == Others
    ensures Category("") == Others
  {
    assert FileTypes[0].1[0] == "MP3";
    assert FileTypes[1].1[1] == "GZ";
    CategoryIff("MP3");
    CategoryIff("GZ");
    ExtensionsUpper();
    CategoryIff("mp3");
    CategoryIff("");
  }

  /** An illustration of `Upper` on an extension. */
  lemma UpperExtensionExample()
    ensures Upper("mp3") == "MP3"
  {
  }

  // ---------------------------------------------------------------------
  // The sorter's bookkeeping

  class FileSorter {
    /** `transliterate_map`, an attribute the sorter never reassigns. */
    const transliterateMap: map<char, string>
    var knownExtensions: set<string>
    var unknownExtensions: set<string>
    var filesByType: map<string, set<string>>

    constructor ()
      ensures transliterateMap == Translit
      ensures knownExtensions == {} && unknownExtensions == {} && filesByType == map[]
    {
      transliterateMap := Translit;
      knownExtensions := {};
      unknownExtensions := {};
      filesByType := map[];
    }

    /** `normalize`: the loop over the stem's characters. */
    method Normalize(name: string, withExt: bool) returns (r: string)
      ensures r == NormalizeName(transliterateMap, name, withExt)
    {
      if |name| > 0 && name[0] == '.' {
        return name;
      }
      var stem := Stem(name);
      r := "";
      var i := 0;
      while i < |stem|
        invariant 0 <= i <= |stem|
        invariant r == NormStem(transliterateMap, stem[..i])
      {
        var c := stem[i];
        if IsAsciiDigit(c) || IsAsciiUpper(c) || IsAsciiLower(c) {
          r := r + [c];
        } else if c in transliterateMap {
          r := r + transliterateMap[c];
        } else {
          r := r + "_";
        }
        NormStemSnoc(transliterateMap, stem, i);
        i := i + 1;
      }
      assert stem[..i] == stem;
      if withExt {
        r := r + Suffix(name);
      }
    }

    /** `find_file_type`: the category found, with the extension recorded
        as known or unknown and the normalised name filed under the
        category. */
    method FindFileType(name: string) returns (t: string)
      modifies this
      ensures t == Category(Upper(Extension(name)))
      ensures t != Others ==> knownExtensions == old(knownExtensions) + {Upper(Extension(name))}
      ensures t == Others ==> knownExtensions == old(knownExtensions)
      ensures t == Others && Extension(name) != [] ==>
        unknownExtensions == old(unknownExtensions) + {Upper(Extension(name))}
      ensures t != Others || Extension(name) == [] ==> unknownExtensions == old(unknownExtensions)
      ensures filesByType == old(filesByType)[t :=
        (if t in old(filesByType) then old(filesByType)[t] else {}) + {NormalizeName(transliterateMap, name, true)}]
    {
      var ext := Extension(name);
      var u := Upper(ext);
      var found: Option<string> := None;
      var i := 0;
      while i < |FileTypes|
        invariant 0 <= i <= |FileTypes|
        invariant found == LastMatch(FileTypes[..i], u)
        invariant knownExtensions == old(knownExtensions) + (if found.Some? then {u} else {})
        invariant unknownExtensions == old(unknownExtensions) && filesByType == old(filesByType)
      {
        assert FileTypes[..i + 1][..i] == FileTypes[..i];
        if u in FileTypes[i].1 {
          found := Some(FileTypes[i].0);
          knownExtensions := knownExtensions + {u};
        }
        i := i + 1;
      }
      assert FileTypes[..i] == FileTypes;
      if found.None? {
        t := Others;
        if ext != [] {
          unknownExtensions := unknownExtensions + {u};
        }
      } else {
        t := found.value;
        CategoryIff(u);
      }
      var n := Normalize(name, true);
      if t !in filesByType {
        assert {} + {n} == {n};
        filesByType := filesByType[t := {n}];
      } else {
        filesByType := filesByType[t := filesByType[t] + {n}];
      }
    }
  }
}
