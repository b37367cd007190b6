/**
  The dictionary file: one `code=word` entry per line. Reading strips each
  line, keeps it only when it holds an `=`, splits it at the first `=` and
  strips both halves; writing emits `code=word` and a newline per entry.
 */
module KamusFormat {
  import opened Wrappers

  type Entry = (string, string)

  /** Python's `str.isspace`: the characters `str.strip()` removes. */
  predicate IsSpace(c: char)
  {
    || ('\t' <= c <= '\r')
    || ('\U{1C}' <= c <= ' ')
    || c == '\U{85}' || c == '\U{A0}' || c == '\U{1680}'
    || ('\U{2000}' <= c <= '\U{200A}')
    || c == '\U{2028}' || c == '\U{2029}' || c == '\U{202F}' || c == '\U{205F}' || c == '\U{3000}'
  }

  predicate AllSpace(s: string)
  {
    forall i :: 0 <= i < |s| ==> IsSpace(s[i])
  }

  /** `s` neither starts nor ends with whitespace. */
  predicate Trimmed(s: string)
  {
    s == [] || (!IsSpace(s[0]) && !IsSpace(s[|s| - 1]))
  }

  /** `str.lstrip()`. */
  function TrimLeft(s: string): string
  {
    if |s| > 0 && IsSpace(s[0]) then TrimLeft(s[1..]) else s
  }

  /** `str.rstrip()`. */
  function TrimRight(s: string): string
  {
    if |s| > 0 && IsSpace(s[|s| - 1]) then TrimRight(s[..|s| - 1]) else s
  }

  /** `str.strip()`. */
  function Strip(s: string): string
  {
    TrimRight(TrimLeft(s))
  }

  /** `lstrip` removes exactly the leading whitespace. */
  lemma {:induction false} TrimLeftMeaning(s: string)
    ensures var r := TrimLeft(s);
      |r| <= |s| && r == s[|s| - |r|..] && AllSpace(s[..|s| - |r|]) && (r == [] || !IsSpace(r[0]))
  {
    if |s| > 0 && IsSpace(s[0]) {
      TrimLeftMeaning(s[1..]);
      var r := TrimLeft(s[1..]);
      assert s[..|s| - |r|] == [s[0]] + s[1..][..|s| - 1 - |r|];
    }
  }

  /** `rstrip` removes exactly the trailing whitespace. */
  lemma {:induction false} TrimRightMeaning(s: string)
    ensures var r := TrimRight(s);
      |r| <= |s| && r == s[..|r|] && AllSpace(s[|r|..]) && (r == [] || !IsSpace(r[|r| - 1]))
  {
    if |s| > 0 && IsSpace(s[|s| - 1]) {
      TrimRightMeaning(s[..|s| - 1]);
      var r := TrimRight(s[..|s| - 1]);
      assert s[|r|..] == s[..|s| - 1][|r|..] + [s[|s| - 1]];
    }
  }

  /** `strip` leaves `s` minus its surrounding whitespace: only whitespace before and after, trimmed in between. */
  lemma StripMeaning(s: string)
    ensures Trimmed(Strip(s))
    ensures exists i :: (0 <= i && i + |Strip(s)| <= |s| && Strip(s) == s[i..i + |Strip(s)|]
      && AllSpace(s[..i]) && AllSpace(s[i + |Strip(s)|..]))
  {
    var t := TrimLeft(s);
    var r := TrimRight(t);
    TrimLeftMeaning(s);
    TrimRightMeaning(t);
    var i := |s| - |t|;
    assert r == s[i..i + |r|];
    assert s[i + |r|..] == t[|r|..];
  }

  /** A string without surrounding whitespace is left alone by `strip`. */
  lemma StripTrimmed(s: string)
    requires Trimmed(s)
    ensures Strip(s) == s
  {
  }

  /** The position of the first `c` in `s`. */
  function FirstIndex(s: string, c: char): (i: nat)
    requires c in s
    ensures i < |s| && s[i] == c && c !in s[..i]
  {
    if s[0] == c then 0
    else
      var j := FirstIndex(s[1..], c);
      assert s[..j + 1] == [s[0]] + s[1..][..j];
      j + 1
  }

  /**
    One line of the dictionary file (penerjemah.py:16-19): the stripped line is
    used when it is non-empty and holds an `=`; it splits at the first `=` and
    both halves are stripped.
   */
  function ParseLine(line: string): (r: Option<Entry>)
    ensures r.Some? <==> '=' in Strip(line)
  {
    var t := Strip(line);
    if t != "" && '=' in t then
      var i := FirstIndex(t, '=');
      Some((Strip(t[..i]), Strip(t[i + 1..])))
    else
      None
  }

  /** A parsed line is the stripped line cut at its first `=`, each half stripped. */
  lemma ParseLineMeaning(line: string)
    ensures ParseLine(line).Some? ==> exists a, b :: (Strip(line) == a + "=" + b && '=' !in a
      && ParseLine(line).value == (Strip(a), Strip(b)))
  {
    var t := Strip(line);
    if '=' in t {
      var i := FirstIndex(t, '=');
      var a, b := t[..i], t[i + 1..];
      SplitAt(t, i);
      assert ParseLine(line) == Some((Strip(a), Strip(b)));
    }
  }

  /** A string is its part before position `i`, the separator at `i`, and its part after. */
  lemma SplitAt(t: string, i: nat)
    requires i < |t| && t[i] == '='
    ensures t == t[..i] + "=" + t[i + 1..]
  {
    assert t[..i] + "=" + t[i + 1..] == t[..i] + [t[i]] + t[i + 1..];
    assert t[..i + 1] == t[..i] + [t[i]];
    assert t == t[..i + 1] + t[i + 1..];
  }

  /** One line as `save_kamus` writes it (penerjemah.py:52). */
  function FormatLine(e: Entry): string
  {
    e.0 + "=" + e.1 + "\n"
  }

  /** An entry that survives a write and a read: a code without `=`, no line breaks, no surrounding whitespace. */
  predicate WellFormed(e: Entry)
  {
    && '=' !in e.0
    && '\n' !in e.0 && '\r' !in e.0 && '\n' !in e.1 && '\r' !in e.1
    && Trimmed(e.0) && Trimmed(e.1)
  }

  predicate AllWellFormed(es: seq<Entry>)
  {
    forall i :: 0 <= i < |es| ==> WellFormed(es[i])
  }

  /** A well-formed entry reads back as itself. */
  lemma ParseFormatLine(e: Entry)
    requires WellFormed(e)
    ensures ParseLine(FormatLine(e)) == Some(e)
  {
    var (k, w) := e;
    var t := k + "=" + w;
    assert FormatLine(e) == t + "\n";
    assert TrimLeft(t + "\n") == t + "\n";
    assert (t + "\n")[..|t|] == t;
    assert TrimRight(t + "\n") == TrimRight(t);
    assert Strip(FormatLine(e)) == t;
    assert t[|k|] == '=' && t[..|k|] == k;
    assert FirstIndex(t, '=') == |k|;
    assert t[|k| + 1..] == w;
    StripTrimmed(k);
    StripTrimmed(w);
  }

  /** The lines `save_kamus` writes, one per entry (penerjemah.py:51-52). */
  function FormatLines(es: seq<Entry>): (ls: seq<string>)
    ensures |ls| == |es|
  {
    if es == [] then [] else [FormatLine(es[0])] + FormatLines(es[1..])
  }

  /**
    `''.join`: the pieces concatenated with no separator. It joins the written
    lines of the file (penerjemah.py:51-52) and the buffered symbols the
    translator works on (penerjemah.py:63, 73, 88).
   */
  function Concat(ls: seq<string>): string
  {
    if ls == [] then "" else ls[0] + Concat(ls[1..])
  }

  /** The text of the whole file. */
  function FormatAll(es: seq<Entry>): string
  {
    Concat(FormatLines(es))
  }

  lemma {:induction false} FormatLinesSnoc(es: seq<Entry>, e: Entry)
    ensures FormatLines(es + [e]) == FormatLines(es) + [FormatLine(e)]
  {
    if es == [] {
      assert [] + [e] == [e];
    } else {
      assert (es + [e])[1..] == es[1..] + [e];
      FormatLinesSnoc(es[1..], e);
    }
  }

  lemma {:induction false} ConcatSnoc(ls: seq<string>, l: string)
    ensures Concat(ls + [l]) == Concat(ls) + l
  {
    if ls == [] {
      assert [] + [l] == [l];
    } else {
      assert (ls + [l])[1..] == ls[1..] + [l];
      ConcatSnoc(ls[1..], l);
    }
  }

  /** Writing one more entry appends its line to the text. */
  lemma FormatAllSnoc(es: seq<Entry>, e: Entry)
    ensures FormatAll(es + [e]) == FormatAll(es) + FormatLine(e)
  {
    FormatLinesSnoc(es, e);
    ConcatSnoc(FormatLines(es), FormatLine(e));
  }

  /** Python's universal-newline reading: `\r\n` and a lone `\r` both become `\n`. */
  function Newlines(s: string): string
  {
    if s == "" then ""
    else if s[0] == '\r' then
      if |s| > 1 && s[1] == '\n' then "\n" + Newlines(s[2..]) else "\n" + Newlines(s[1..])
    else
      [s[0]] + Newlines(s[1..])
  }

  /** No `\r` survives newline translation, and text without one is unchanged. */
  lemma {:induction false} NewlinesMeaning(s: string)
    ensures '\r' !in Newlines(s)
    ensures '\r' !in s ==> Newlines(s) == s
  {
    if s != "" {
      if s[0] == '\r' {
        if |s| > 1 && s[1] == '\n' {
          NewlinesMeaning(s[2..]);
        } else {
          NewlinesMeaning(s[1..]);
        }
      } else {
        assert '\r' !in s ==> '\r' !in s[1..];
        NewlinesMeaning(s[1..]);
      }
    }
  }

  /** Iterating over a text file: each piece runs up to and including the next `\n`. */
  function SplitLines(s: string): seq<string>
    decreases |s|
  {
    if s == "" then []
    else if '\n' in s then
      var i := FirstIndex(s, '\n');
      [s[..i + 1]] + SplitLines(s[i + 1..])
    else
      [s]
  }

  /** A non-empty piece of text whose only possible `\n` is its last character. */
  predicate OneLine(l: string)
  {
    l != "" && '\n' !in l[..|l| - 1]
  }

  predicate EndsLine(l: string)
  {
    l != "" && l[|l| - 1] == '\n'
  }

  /**
    The pieces put back together give the text, each is one line, and every
    piece but the last ends with its `\n`.
   */
  lemma {:induction false} SplitLinesMeaning(s: string)
    ensures Concat(SplitLines(s)) == s
    ensures forall j :: 0 <= j < |SplitLines(s)| ==> OneLine(SplitLines(s)[j])
    ensures forall j :: 0 <= j < |SplitLines(s)| - 1 ==> EndsLine(SplitLines(s)[j])
    decreases |s|
  {
    if s != "" && '\n' in s {
      var i := FirstIndex(s, '\n');
      FirstLine(s);
      SplitLinesMeaning(s[i + 1..]);
      ConsLine(s[..i + 1], SplitLines(s[i + 1..]));
      assert s[..i + 1] + s[i + 1..] == s;
    } else if s != "" {
      assert SplitLines(s) == [s];
      assert Concat([s]) == s + Concat([]);
      assert '\n' !in s[..|s| - 1];
    }
  }

  /** The text up to and including the first `\n` is one line ending with it. */
  lemma FirstLine(s: string)
    requires '\n' in s
    ensures OneLine(s[..FirstIndex(s, '\n') + 1]) && EndsLine(s[..FirstIndex(s, '\n') + 1])
  {
    var i := FirstIndex(s, '\n');
    var head := s[..i + 1];
    assert |head| == i + 1 && head[i] == '\n';
    assert head[..|head| - 1] == s[..i];
  }

  lemma ConsLine(head: string, tail: seq<string>)
    requires OneLine(head) && EndsLine(head)
    requires forall j :: 0 <= j < |tail| ==> OneLine(tail[j])
    requires forall j :: 0 <= j < |tail| - 1 ==> EndsLine(tail[j])
    ensures Concat([head] + tail) == head + Concat(tail)
    ensures forall j :: 0 <= j < |[head] + tail| ==> OneLine(([head] + tail)[j])
    ensures forall j :: 0 <= j < |[head] + tail| - 1 ==> EndsLine(([head] + tail)[j])
  {
    assert ([head] + tail)[1..] == tail;
  }

  /** The entries of the lines that parse, in file order. */
  function Parsed(lines: seq<string>): seq<Entry>
  {
    if lines == [] then []
    else
      match ParseLine(lines[0])
      case Some(e) => [e] + Parsed(lines[1..])
      case None => Parsed(lines[1..])
  }

  /** The lines `load_kamus` iterates over. */
  function FileLines(text: string): seq<string>
  {
    SplitLines(Newlines(text))
  }

  /** The entries `load_kamus` passes to `tambah`, in file order. */
  function LoadEntries(text: string): seq<Entry>
  {
    Parsed(FileLines(text))
  }

  function KeysOf(es: seq<Entry>): set<string>
  {
    set i | 0 <= i < |es| :: es[i].0
  }

  /** Inserting the entries one after another, as successive `tambah` calls do. */
  function InsertAll(m: map<string, string>, es: seq<Entry>): map<string, string>
    decreases |es|
  {
    if es == [] then m else InsertAll(m[es[0].0 := es[0].1], es[1..])
  }

  lemma KeysOfCons(es: seq<Entry>)
    requires es != []
    ensures KeysOf(es) == {es[0].0} + KeysOf(es[1..])
  {
    forall k | k in KeysOf(es)
      ensures k in {es[0].0} + KeysOf(es[1..])
    {
      var i :| 0 <= i < |es| && es[i].0 == k;
      if i > 0 {
        assert es[1..][i - 1].0 == k;
      }
    }
  }

  /**
    After the insertions every code is present, the last entry for a code
    wins, and codes not mentioned keep their old word.
   */
  lemma {:induction false} InsertAllMeaning(m: map<string, string>, es: seq<Entry>)
    decreases |es|
    ensures InsertAll(m, es).Keys == m.Keys + KeysOf(es)
    ensures forall k :: k in m && k !in KeysOf(es) ==> InsertAll(m, es)[k] == m[k]
    ensures forall i :: 0 <= i < |es| && es[i].0 !in KeysOf(es[i + 1..]) ==> InsertAll(m, es)[es[i].0] == es[i].1
  {
    if es != [] {
      InsertAllMeaning(m[es[0].0 := es[0].1], es[1..]);
      KeysOfCons(es);
      assert forall i :: 1 <= i < |es| ==> es[i + 1..] == es[1..][i..];
    }
  }

  predicate DistinctCodes(es: seq<Entry>)
  {
    forall i, j :: 0 <= i < j < |es| ==> es[i].0 != es[j].0
  }

  /** `es` lists every entry of `m` exactly once, in some order. */
  ghost predicate Enumerates(es: seq<Entry>, m: map<string, string>)
  {
    && (forall i :: 0 <= i < |es| ==> es[i].0 in m && m[es[i].0] == es[i].1)
    && DistinctCodes(es)
    && KeysOf(es) == m.Keys
  }

  lemma NotLater(es: seq<Entry>, i: nat)
    requires i < |es| && DistinctCodes(es)
    ensures es[i].0 !in KeysOf(es[i + 1..])
  {
    var later := es[i + 1..];
    forall j | 0 <= j < |later|
      ensures later[j].0 != es[i].0
    {
      assert later[j] == es[i + 1 + j];
    }
  }

  /** Inserting an enumeration of `m` into an empty dictionary rebuilds `m`. */
  lemma InsertEnumeration(es: seq<Entry>, m: map<string, string>)
    requires Enumerates(es, m)
    ensures InsertAll(map[], es) == m
  {
    var r := InsertAll(map[], es);
    InsertAllMeaning(map[], es);
    forall k | k in m
      ensures r[k] == m[k]
    {
      var i :| 0 <= i < |es| && es[i].0 == k;
      NotLater(es, i);
    }
  }

  lemma {:induction false} NoCarriageReturn(es: seq<Entry>)
    requires AllWellFormed(es)
    ensures '\r' !in FormatAll(es)
  {
    if es != [] {
      NoCarriageReturn(es[1..]);
      assert FormatAll(es) == FormatLine(es[0]) + FormatAll(es[1..]);
    }
  }

  /** The first written line runs exactly up to its own `\n`. */
  lemma SplitAfterLine(e: Entry, rest: string)
    requires WellFormed(e)
    ensures SplitLines(FormatLine(e) + rest) == [FormatLine(e)] + SplitLines(rest)
  {
    var line := FormatLine(e);
    var s := line + rest;
    var n := |line| - 1;
    assert line[..n] == e.0 + "=" + e.1;
    assert s[n] == '\n';
    assert FirstIndex(s, '\n') == n;
    assert s[..n + 1] == line;
    assert s[n + 1..] == rest;
  }

  lemma {:induction false} SplitFormatted(es: seq<Entry>)
    requires AllWellFormed(es)
    ensures SplitLines(FormatAll(es)) == FormatLines(es)
  {
    if es != [] {
      assert FormatAll(es) == FormatLine(es[0]) + FormatAll(es[1..]);
      SplitAfterLine(es[0], FormatAll(es[1..]));
      SplitFormatted(es[1..]);
    }
  }

  lemma {:induction false} ParsedFormatted(es: seq<Entry>)
    requires AllWellFormed(es)
    ensures Parsed(FormatLines(es)) == es
  {
    if es != [] {
      ParseFormatLine(es[0]);
      assert FormatLines(es)[1..] == FormatLines(es[1..]);
      ParsedFormatted(es[1..]);
    }
  }

  /** Writing well-formed entries and reading the text back yields the same entries, in order. */
  lemma FormatLoadRoundTrip(es: seq<Entry>)
    requires AllWellFormed(es)
    ensures LoadEntries(FormatAll(es)) == es
  {
    NoCarriageReturn(es);
    NewlinesMeaning(FormatAll(es));
    SplitFormatted(es);
    ParsedFormatted(es);
  }

  /** Saving a dictionary of well-formed entries and loading the file gives the dictionary back. */
  lemma SaveLoadRoundTrip(es: seq<Entry>, m: map<string, string>)
    requires Enumerates(es, m) && AllWellFormed(es)
    ensures InsertAll(map[], LoadEntries(FormatAll(es))) == m
  {
    FormatLoadRoundTrip(es);
    InsertEnumeration(es, m);
  }
}
