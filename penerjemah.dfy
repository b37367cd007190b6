/**
  The translator session: the symbols received so far (`kalimatSementara`),
  the finalised history (`kalimatFinal`) and the dictionary trie. The live
  preview uses the longest-prefix lookup; finalising tokenises the buffer
  greedily with the prefix search.
 */
module Translator {
  import opened Wrappers
  import opened PrefixTree
  import opened KamusFormat

  /** `' '.join(xs)`. */
  function JoinSpace(xs: seq<string>): string
  {
    if |xs| == 0 then ""
    else if |xs| == 1 then xs[0]
    else xs[0] + " " + JoinSpace(xs[1..])
  }

  /** Each character of `s` as a token of its own: the literal fallback of `get_kalimat`. */
  function Literals(s: string): seq<string>
  {
    seq(|s|, i requires 0 <= i < |s| => [s[i]])
  }

  /** `k` is a longest member of `ks`. */
  predicate IsLongestKey(ks: set<string>, k: string)
  {
    k in ks && forall k' :: k' in ks ==> |k'| <= |k|
  }

  /** `k` is an inserted code extending `t` and no such code is longer (the `max(..., key=len)` pick). */
  ghost predicate IsLongestExtension(m: map<string, string>, t: string, k: string)
  {
    IsLongestKey(WordsWithPrefix(m, t).Keys, k)
  }

  /** No inserted code extends any of the remainders `s[j..]` with `j < n`. */
  ghost predicate NoneBefore(m: map<string, string>, s: string, n: nat)
    requires n <= |s|
  {
    forall j :: 0 <= j < n ==> WordsWithPrefix(m, s[j..]) == map[]
  }

  /** The remainder at `j` is the first that some code extends; `k` is a longest such code. */
  ghost predicate WordAt(m: map<string, string>, s: string, j: int, k: string, hasil: seq<string>)
  {
    && 0 <= j < |s|
    && NoneBefore(m, s, j)
    && IsLongestExtension(m, s[j..], k)
    && hasil == Literals(s[..j]) + [m[k]]
  }

  /**
    The tokens `get_kalimat` emits for `s` (penerjemah.py:88-102): a literal
    character for each offset whose remainder no code extends, until the first
    offset whose remainder some code extends, which emits the word of a
    longest such code and ends the scan.
   */
  ghost predicate Finalizes(m: map<string, string>, s: string, hasil: seq<string>)
  {
    || (NoneBefore(m, s, |s|) && hasil == Literals(s))
    || exists j, k :: WordAt(m, s, j, k, hasil)
  }

  /** A non-empty finite set of codes has a longest member. */
  lemma {:induction false} LongestKeyExists(ks: set<string>)
    requires ks != {}
    ensures exists k :: IsLongestKey(ks, k)
    decreases ks
  {
    var x :| x in ks;
    var rest := ks - {x};
    if rest == {} {
      assert IsLongestKey(ks, x) by {
        forall k' | k' in ks
          ensures |k'| <= |x|
        {
          assert k' !in rest;
        }
      }
    } else {
      LongestKeyExists(rest);
      var y :| IsLongestKey(rest, y);
      var z := if |x| > |y| then x else y;
      assert IsLongestKey(ks, z) by {
        forall k' | k' in ks
          ensures |k'| <= |z|
        {
          if k' != x {
            assert k' in rest;
          }
        }
      }
    }
  }

  /**
    Finalising emits zero or more literal characters of `s`, in order,
    followed by at most one dictionary word, which comes last; it emits only
    literals, one per character, when no code extends any remainder.
   */
  lemma FinalizeShape(m: map<string, string>, s: string, hasil: seq<string>)
    requires Finalizes(m, s, hasil)
    ensures |hasil| <= |s|
    ensures forall t :: 0 <= t < |hasil| - 1 ==> hasil[t] == [s[t]]
    ensures NoneBefore(m, s, |s|) ==> hasil == Literals(s)
    ensures !NoneBefore(m, s, |s|) ==>
      |hasil| > 0 && exists k :: k in m && s[|hasil| - 1..] <= k && hasil[|hasil| - 1] == m[k]
  {
    if NoneBefore(m, s, |s|) {
      OnlyLiterals(m, s, hasil);
      assert |hasil| == |s|;
    } else {
      var j, k :| WordAt(m, s, j, k, hasil);
      WordAtShape(m, s, j, k, hasil);
      assert |hasil| - 1 == j && s[j..] <= k;
    }
  }

  /** When no code extends any remainder, only the all-literal outcome is possible. */
  lemma OnlyLiterals(m: map<string, string>, s: string, hasil: seq<string>)
    requires Finalizes(m, s, hasil) && NoneBefore(m, s, |s|)
    ensures hasil == Literals(s)
  {
    if exists j, k :: WordAt(m, s, j, k, hasil) {
      assert false;
    }
  }

  /** A scan that ends on a word: `j` literals, then the word, and some remainder is extended. */
  lemma WordAtShape(m: map<string, string>, s: string, j: int, k: string, hasil: seq<string>)
    requires WordAt(m, s, j, k, hasil)
    ensures |hasil| == j + 1 <= |s|
    ensures forall t :: 0 <= t < j ==> hasil[t] == [s[t]]
    ensures k in m && s[j..] <= k && hasil[j] == m[k]
    ensures !NoneBefore(m, s, |s|)
  {
    var lits := Literals(s[..j]);
    assert |lits| == j;
    assert k in WordsWithPrefix(m, s[j..]);
    forall t | 0 <= t < j
      ensures hasil[t] == [s[t]]
    {
      assert hasil[t] == lits[t];
    }
  }

  /** The dictionary `create_default_kamus` inserts (penerjemah.py:28-43), in source order. */
  function DefaultKamus(): seq<Entry>
  { [
    ("1", "saya"), ("12", "kamu"), ("123", "dia"), ("2", "pergi"), ("23", "makan"),
    ("3", "ke"), ("34", "dari"), ("4", "sekolah"), ("45", "rumah"), ("5", "pada"),
    ("56", "dengan"), ("6", "hari"), ("67", "ini"), ("7", ".")]
  }

  function DefaultMap(): map<string, string>
  { map[
    "1" := "saya", "12" := "kamu", "123" := "dia", "2" := "pergi", "23" := "makan",
    "3" := "ke", "34" := "dari", "4" := "sekolah", "45" := "rumah", "5" := "pada",
    "56" := "dengan", "6" := "hari", "67" := "ini", "7" := "."]
  }

  /** The default codes are pairwise distinct. */
  lemma DefaultDistinct()
    ensures DistinctCodes(DefaultKamus())
  {
    forall i, j | 0 <= i < j < |DefaultKamus()|
      ensures DefaultKamus()[i].0 != DefaultKamus()[j].0
    {
      var a, b := DefaultKamus()[i].0, DefaultKamus()[j].0;
      assert |a| != |b| || a[0] != b[0];
    }
  }

  /** Every default entry is an entry of the default map. */
  lemma DefaultPairs()
    ensures forall i :: 0 <= i < |DefaultKamus()| ==> DefaultKamus()[i].0 in DefaultMap() && DefaultMap()[DefaultKamus()[i].0] == DefaultKamus()[i].1
  {
  }

  /** Every code of the default map is a default code. */
  lemma DefaultKeys()
    ensures DefaultMap().Keys <= KeysOf(DefaultKamus())
  {
    var es := DefaultKamus();
    assert DefaultMap().Keys == {es[0].0, es[1].0, es[2].0, es[3].0, es[4].0, es[5].0, es[6].0,
      es[7].0, es[8].0, es[9].0, es[10].0, es[11].0, es[12].0, es[13].0};
  }

  /** Inserting the default entries into an empty dictionary gives the default map. */
  lemma DefaultKamusMap()
    ensures InsertAll(map[], DefaultKamus()) == DefaultMap()
  {
    DefaultDistinct();
    DefaultPairs();
    DefaultKeys();
    assert KeysOf(DefaultKamus()) <= DefaultMap().Keys;
    InsertEnumeration(DefaultKamus(), DefaultMap());
  }

  class Penerjemah {
    const trie: Trie
    /** The symbols received since the last reset. */
    var kalimatSementara: seq<string>
    /** Every token finalised so far. */
    var kalimatFinal: seq<string>

    /**
      `__init__` with `load_kamus`: `kamus` is the text of the dictionary file,
      or None when the file does not exist, in which case the default
      dictionary is built.
     */
    constructor (kamus: Option<string>)
      ensures trie.Valid() && fresh(trie) && fresh(trie.Repr)
      ensures kalimatSementara == [] && kalimatFinal == []
      ensures kamus.Some? ==> trie.daftarKata == InsertAll(map[], LoadEntries(kamus.value))
      ensures kamus.None? ==> trie.daftarKata == DefaultMap()
    {
      trie := new Trie();
      kalimatSementara := [];
      kalimatFinal := [];
      new;
      LoadKamus(kamus);
      if kamus.None? {
        DefaultKamusMap();
      }
    }

    /**
      `load_kamus`: with the file's text, insert every line that parses; when
      the file does not exist (`kamus` is None), build the default dictionary.
     */
    method LoadKamus(kamus: Option<string>)
      requires trie.Valid()
      modifies trie, trie.Repr
      ensures trie.Valid() && fresh(trie.Repr - old(trie.Repr))
      ensures kalimatSementara == old(kalimatSementara) && kalimatFinal == old(kalimatFinal)
      ensures kamus.Some? ==> trie.daftarKata == InsertAll(old(trie.daftarKata), LoadEntries(kamus.value))
      ensures kamus.None? ==> trie.daftarKata == InsertAll(old(trie.daftarKata), DefaultKamus())
    {
      match kamus
      case Some(text) =>
        LoadLines(text);
      case None =>
        CreateDefaultKamus();
    }

    /** The loop of `load_kamus` over an open file: every line that parses is inserted, in file order. */
    method LoadLines(text: string)
      requires trie.Valid()
      modifies trie, trie.Repr
      ensures trie.Valid() && fresh(trie.Repr - old(trie.Repr))
      ensures kalimatSementara == old(kalimatSementara) && kalimatFinal == old(kalimatFinal)
      ensures trie.daftarKata == InsertAll(old(trie.daftarKata), LoadEntries(text))
    {
      var lines := FileLines(text);
      for i := 0 to |lines|
        invariant trie.Valid() && fresh(trie.Repr - old(trie.Repr))
        invariant InsertAll(trie.daftarKata, Parsed(lines[i..])) == InsertAll(old(trie.daftarKata), Parsed(lines))
      {
        assert lines[i..][1..] == lines[i + 1..];
        match ParseLine(lines[i])
        case Some((kode, kata)) =>
          trie.Tambah(kode, kata);
        case None =>
      }
    }

    /** `create_default_kamus`: insert the default entries in order. */
    method CreateDefaultKamus()
      requires trie.Valid()
      modifies trie, trie.Repr
      ensures trie.Valid() && fresh(trie.Repr - old(trie.Repr))
      ensures kalimatSementara == old(kalimatSementara) && kalimatFinal == old(kalimatFinal)
      ensures trie.daftarKata == InsertAll(old(trie.daftarKata), DefaultKamus())
    {
      TambahSemua(DefaultKamus());
    }

    /** The loop of `create_default_kamus`: `tambah` each entry in turn. */
    method TambahSemua(es: seq<Entry>)
      requires trie.Valid()
      modifies trie, trie.Repr
      ensures trie.Valid() && fresh(trie.Repr - old(trie.Repr))
      ensures kalimatSementara == old(kalimatSementara) && kalimatFinal == old(kalimatFinal)
      ensures trie.daftarKata == InsertAll(old(trie.daftarKata), es)
    {
      for i := 0 to |es|
        invariant trie.Valid() && fresh(trie.Repr - old(trie.Repr))
        invariant InsertAll(trie.daftarKata, es[i..]) == InsertAll(old(trie.daftarKata), es)
      {
        assert es[i..][1..] == es[i + 1..];
        var (kode, kata) := es[i];
        trie.Tambah(kode, kata);
      }
    }

    /**
      `save_kamus` without the file: the text written, one `code=word` line per
      dictionary entry; `entries` is the order in which they are written.
     */
    method SaveKamus() returns (text: string, ghost entries: seq<Entry>)
      ensures Enumerates(entries, trie.daftarKata)
      ensures text == FormatAll(entries)
    {
      var m := trie.daftarKata;
      var pending := m.Keys;
      text := "";
      entries := [];
      while pending != {}
        invariant pending <= m.Keys && KeysOf(entries) == m.Keys - pending
        invariant forall i :: 0 <= i < |entries| ==> entries[i].0 in m && m[entries[i].0] == entries[i].1
        invariant DistinctCodes(entries)
        invariant text == FormatAll(entries)
        decreases pending
      {
        var kode :| kode in pending;
        FormatAllSnoc(entries, (kode, m[kode]));
        assert KeysOf(entries + [(kode, m[kode])]) == KeysOf(entries) + {kode} by {
          var es := entries + [(kode, m[kode])];
          forall c | c in KeysOf(es) ensures c in KeysOf(entries) + {kode} {
            var i :| 0 <= i < |es| && es[i].0 == c;
            if i < |entries| {
              assert entries[i].0 == c;
            }
          }
          forall c | c in KeysOf(entries) ensures c in KeysOf(es) {
            var i :| 0 <= i < |entries| && entries[i].0 == c;
            assert es[i].0 == c;
          }
          assert es[|entries|].0 == kode;
        }
        text := text + FormatLine((kode, m[kode]));
        entries := entries + [(kode, m[kode])];
        pending := pending - {kode};
      }
    }

    /** `proses_input`: ignore empty input, else append it and look up the longest prefix of the buffer. */
    method ProsesInput(inputNada: string) returns (terjemahan: Option<string>)
      requires trie.Valid()
      modifies this
      ensures kalimatFinal == old(kalimatFinal)
      ensures inputNada == "" ==> terjemahan == None && kalimatSementara == old(kalimatSementara)
      ensures inputNada != "" ==> kalimatSementara == old(kalimatSementara) + [inputNada]
      ensures inputNada != "" ==> terjemahan == LongestPrefixWord(trie.daftarKata, Concat(kalimatSementara))
    {
      if inputNada == "" {
        return None;
      }
      kalimatSementara := kalimatSementara + [inputNada];
      var rangkaian := Concat(kalimatSementara);
      terjemahan := trie.CariTerpanjang(rangkaian);
    }

    /**
      `get_kalimat_sementara`: "" for an empty buffer, the word of the longest
      inserted prefix of the buffer when there is one and it is non-empty, and
      otherwise the symbols joined by spaces.
     */
    method GetKalimatSementara() returns (s: string)
      requires trie.Valid()
      ensures kalimatSementara == [] ==> s == ""
      ensures kalimatSementara != [] ==> var w := LongestPrefixWord(trie.daftarKata, Concat(kalimatSementara));
        s == if w.Some? && w.value != "" then w.value else JoinSpace(kalimatSementara)
    {
      if kalimatSementara == [] {
        return "";
      }
      var rangkaian := Concat(kalimatSementara);
      var terjemahan := trie.CariTerpanjang(rangkaian);
      if terjemahan.Some? && terjemahan.value != "" {
        s := terjemahan.value;
      } else {
        s := JoinSpace(kalimatSementara);
      }
    }

    /**
      `get_kalimat`: tokenise the buffer, append the tokens to the history and
      return them joined by spaces; the buffer itself is kept.
     */
    method GetKalimat() returns (s: string)
      requires trie.Valid()
      modifies this
      ensures kalimatSementara == old(kalimatSementara)
      ensures kalimatSementara == [] ==> s == "" && kalimatFinal == old(kalimatFinal)
      ensures kalimatSementara != [] ==> exists hasil ::
        Finalizes(trie.daftarKata, Concat(kalimatSementara), hasil)
        && kalimatFinal == old(kalimatFinal) + hasil && s == JoinSpace(hasil)
    {
      if kalimatSementara == [] {
        return "";
      }
      var rangkaian := Concat(kalimatSementara);
      var hasil := Tokenise(rangkaian);
      kalimatFinal := kalimatFinal + hasil;
      s := JoinSpace(hasil);
    }

    /**
      The scan of `get_kalimat` (penerjemah.py:88-102): at each offset search
      the codes extending the remainder; on a hit emit the word of a longest
      one and jump past it, otherwise emit the character and step by one.
     */
    method Tokenise(rangkaian: string) returns (hasil: seq<string>)
      requires trie.Valid()
      ensures Finalizes(trie.daftarKata, rangkaian, hasil)
    {
      ghost var m := trie.daftarKata;
      hasil := [];
      var i := 0;
      ghost var matched := false;
      while i < |rangkaian|
        invariant 0 <= i
        invariant !matched ==> (i <= |rangkaian| && NoneBefore(m, rangkaian, i)
          && hasil == Literals(rangkaian[..i]))
        invariant matched ==> i >= |rangkaian| && exists j, k :: WordAt(m, rangkaian, j, k, hasil)
        decreases |rangkaian| - i
      {
        var terjemahan := trie.CariPrefix(rangkaian[i..]);
        if terjemahan != map[] {
          LongestKeyExists(terjemahan.Keys);
          var terpanjang :| IsLongestKey(terjemahan.Keys, terpanjang);
          assert WordAt(m, rangkaian, i, terpanjang, hasil + [trie.daftarKata[terpanjang]]);
          assert rangkaian[i..] <= terpanjang;
          hasil := hasil + [trie.daftarKata[terpanjang]];
          i := i + |terpanjang|;
          matched := true;
        } else {
          assert Literals(rangkaian[..i + 1]) == Literals(rangkaian[..i]) + [[rangkaian[i]]];
          hasil := hasil + [[rangkaian[i]]];
          i := i + 1;
        }
      }
      if !matched {
        assert rangkaian[..i] == rangkaian;
      }
    }

    /** `reset`: empty the buffer, keep the history and the dictionary. */
    method Reset()
      modifies this
      ensures kalimatSementara == [] && kalimatFinal == old(kalimatFinal)
    {
      kalimatSementara := [];
    }

    /** `tambah_kata`: insert or overwrite one dictionary entry. */
    method TambahKata(kode: string, kata: string)
      requires trie.Valid()
      modifies trie, trie.Repr
      ensures trie.Valid() && fresh(trie.Repr - old(trie.Repr))
      ensures trie.daftarKata == old(trie.daftarKata)[kode := kata]
    {
      trie.Tambah(kode, kata);
    }
  }

  /** The default codes have at most three symbols, "123" is the only one with three, none extends "21". */
  lemma DefaultCodes()
    ensures forall k :: k in DefaultMap() ==> |k| <= 3 && (|k| == 3 ==> k == "123")
    ensures forall k :: k in DefaultMap() ==> !("21" <= k)
  {
    forall k | k in DefaultMap()
      ensures |k| <= 3 && (|k| == 3 ==> k == "123") && !("21" <= k)
    {
      assert k in {"1", "12", "123", "2", "23", "3", "34", "4", "45", "5", "56", "6", "67", "7"};
      assert |k| < 2 || k[0] != '2' || k[1] != '1';
    }
  }

  /** With the default dictionary "1" finalises to "dia": "123" is the longest code extending it. */
  lemma DefaultFinalizeOne(hasil: seq<string>)
    ensures Finalizes(DefaultMap(), "1", hasil) <==> hasil == ["dia"]
  {
    LongestExtensionOfOne();
    assert "1"[0..] == "1" && "1"[..0] == "";
    if hasil == ["dia"] {
      assert WordAt(DefaultMap(), "1", 0, "123", hasil);
    }
    if Finalizes(DefaultMap(), "1", hasil) {
      assert WordsWithPrefix(DefaultMap(), "1"[0..]) != map[];
      var j, k :| WordAt(DefaultMap(), "1", j, k, hasil);
      assert j == 0 && k == "123";
    }
  }

  /** "123" is the one longest default code extending "1". */
  lemma LongestExtensionOfOne()
    ensures IsLongestExtension(DefaultMap(), "1", "123")
    ensures forall k :: IsLongestExtension(DefaultMap(), "1", k) ==> k == "123"
  {
    DefaultCodes();
    assert "1" <= "123";
  }

  /** With the default dictionary "21" finalises to "2 dia": no code extends "21", so "2" stays literal. */
  lemma DefaultFinalizeTwoOne(hasil: seq<string>)
    ensures Finalizes(DefaultMap(), "21", hasil) <==> hasil == ["2", "dia"]
  {
    var s := "21";
    DefaultCodes();
    LongestExtensionOfOne();
    assert s[0..] == s && s[1..] == "1" && s[..1] == "2";
    assert WordsWithPrefix(DefaultMap(), s[0..]) == map[];
    assert NoneBefore(DefaultMap(), s, 1);
    assert Literals("2") == ["2"];
    if hasil == ["2", "dia"] {
      assert WordAt(DefaultMap(), s, 1, "123", hasil);
    }
    if Finalizes(DefaultMap(), s, hasil) {
      assert WordsWithPrefix(DefaultMap(), s[1..]) != map[];
      var j, k :| WordAt(DefaultMap(), s, j, k, hasil);
      assert j == 1 && k == "123";
    }
  }

  /** The longest default code that is a prefix of "21" is "2". */
  lemma PreviewOfTwoOne()
    ensures LongestPrefixWord(DefaultMap(), "21") == Some("pergi")
  {
    assert "21"[..2] == "21" && "21"[..1] == "2";
    assert "21" !in DefaultMap() && "2" in DefaultMap();
    assert LongestUpTo(DefaultMap(), "21", 1) == Some("pergi");
  }

  /** The buffer ["2", "1"] joins to "21". */
  lemma ConcatTwoOne()
    ensures Concat(["2", "1"]) == "21"
  {
    var b: seq<string> := ["2", "1"];
    assert b[1..] == ["1"];
    assert Concat(["1"]) == "1";
  }

  /** The tokens ["2", "dia"] are shown as "2 dia". */
  lemma JoinTwoDia()
    ensures JoinSpace(["2", "dia"]) == "2 dia"
  {
    var xs: seq<string> := ["2", "dia"];
    assert xs[1..] == ["dia"];
    assert JoinSpace(xs) == "2" + " " + "dia";
  }

  /**
    The preview and the final sentence disagree on the buffer ["2", "1"]:
    the preview shows the word of the longest prefix, "pergi", finalising
    gives "2 dia".
   */
  lemma PreviewDiffersFromFinal()
    ensures Concat(["2", "1"]) == "21"
    ensures LongestPrefixWord(DefaultMap(), "21") == Some("pergi")
    ensures forall hasil :: Finalizes(DefaultMap(), "21", hasil) ==> JoinSpace(hasil) == "2 dia"
  {
    ConcatTwoOne();
    PreviewOfTwoOne();
    forall hasil | Finalizes(DefaultMap(), "21", hasil)
      ensures JoinSpace(hasil) == "2 dia"
    {
      DefaultFinalizeTwoOne(hasil);
      JoinTwoDia();
    }
  }
}
