/**
 * The text format of the write-ahead logs: one `key:value` record per line.
 * Encoding appends records; decoding cuts the file into lines the way
 * bufio's line scanner does, cuts each line at ':' the way strings.Split
 * does, and keeps the value of each key's last line.
 */
module WalFormat {
  import opened Wrappers
  import opened Keys
  import opened Errors
  import Seqs

  /** The record Entry appends for `(key, value)`. */
  function Record(key: Bytes, value: Bytes): Bytes
  {
    key + [Colon] + value + [Newline]
  }

  /** The line a record leaves once its newline is cut off. */
  function Text(e: Entry): Bytes
  {
    e.key + [Colon] + e.value
  }

  /** The records of `es`, in order: the log after writing `es` to an empty file. */
  function Encode(es: seq<Entry>): (r: Bytes)
    ensures r == [] <==> es == []
    ensures r != [] ==> r[|r| - 1] == Newline
  {
    if es == [] then [] else Encode(es[..|es| - 1]) + Record(es[|es| - 1].key, es[|es| - 1].value)
  }

  /** strings.Split with a one-byte separator: the pieces between separators, one more than there are separators. */
  function Split(s: Bytes, sep: Byte): (r: seq<Bytes>)
    ensures |r| >= 1
  {
    if s == [] then [[]]
    else
      var rest := Split(s[1..], sep);
      if s[0] == sep then [[]] + rest else [[s[0]] + rest[0]] + rest[1..]
  }

  /** strings.Join with a one-byte separator. */
  function Join(parts: seq<Bytes>, sep: Byte): Bytes
  {
    if parts == [] then []
    else if |parts| == 1 then parts[0]
    else parts[0] + [sep] + Join(parts[1..], sep)
  }

  /**
   * The lines bufio's line scanner yields for `data`: the pieces between
   * newlines, where a final newline ends the last line instead of starting
   * an empty one.
   */
  function Lines(data: Bytes): seq<Bytes>
  {
    var f := Split(data, Newline);
    if f[|f| - 1] == [] then f[..|f| - 1] else f
  }

  /** A line Read accepts: cutting it at ':' gives exactly two fields. */
  predicate WellformedLine(line: Bytes)
  {
    |Split(line, Colon)| == 2
  }

  /** The pair a well-formed line stands for. */
  function LineEntry(line: Bytes): Entry
    requires WellformedLine(line)
  {
    var f := Split(line, Colon);
    Entry(f[0], f[1])
  }

  /** The index of the first malformed line, or the number of lines if there is none. */
  function FirstBad(ls: seq<Bytes>): (n: nat)
    ensures n <= |ls|
    ensures forall i :: 0 <= i < n ==> WellformedLine(ls[i])
    ensures n < |ls| ==> !WellformedLine(ls[n])
  {
    if ls == [] || !WellformedLine(ls[0]) then 0 else 1 + FirstBad(ls[1..])
  }

  /** The pairs of a sequence of well-formed lines. */
  function Parsed(ls: seq<Bytes>): (es: seq<Entry>)
    requires forall i :: 0 <= i < |ls| ==> WellformedLine(ls[i])
    ensures |es| == |ls|
  {
    seq(|ls|, i requires 0 <= i < |ls| => LineEntry(ls[i]))
  }

  /** The pairs of the well-formed lines only, in order. */
  function Kept(ls: seq<Bytes>): seq<Entry>
  {
    if ls == [] then []
    else
      var last := ls[|ls| - 1];
      Kept(ls[..|ls| - 1]) + if WellformedLine(last) then [LineEntry(last)] else []
  }

  /** The table of `es` where a later pair for a key overrides an earlier one. */
  function LastWins(es: seq<Entry>): map<Bytes, Bytes>
  {
    if es == [] then map[] else LastWins(es[..|es| - 1])[es[|es| - 1].key := es[|es| - 1].value]
  }

  /**
   * The strict decoding of the storage log: the first malformed line makes it
   * fail with that line's 1-based number, and otherwise every line counts.
   */
  function Decode(ls: seq<Bytes>): Result<map<Bytes, Bytes>, Error>
  {
    var n := FirstBad(ls);
    if n < |ls| then Failure(BadLine(n + 1)) else Success(LastWins(Parsed(ls)))
  }

  /** The lenient decoding of the prototype log: malformed lines are skipped. */
  function DecodeLenient(ls: seq<Bytes>): map<Bytes, Bytes>
  {
    LastWins(Kept(ls))
  }

  /** A pair the format carries unharmed: no ':' and no newline in key or value. */
  predicate Clean(e: Entry)
  {
    Colon !in e.key && Newline !in e.key && Colon !in e.value && Newline !in e.value
  }

  // ----- Split and Join -----

  /** A piece without the separator is its own split. */
  lemma {:induction false} SplitNoSep(s: Bytes, sep: Byte)
    requires sep !in s
    ensures Split(s, sep) == [s]
  {
    if s != [] {
      assert sep !in s[1..] by {
        forall j | 0 <= j < |s[1..]| ensures s[1..][j] != sep {
          assert s[1..][j] == s[j + 1];
        }
      }
      SplitNoSep(s[1..], sep);
      Seqs.Cons(s);
    }
  }

  /** Splitting at a separator splits both sides. */
  lemma {:induction false} SplitJoin(x: Bytes, y: Bytes, sep: Byte)
    ensures Split(x + [sep] + y, sep) == Split(x, sep) + Split(y, sep)
  {
    var s := x + [sep] + y;
    if x == [] {
      assert s == [sep] + y;
      assert s[1..] == y;
    } else {
      assert s[0] == x[0];
      assert s[1..] == x[1..] + [sep] + y;
      SplitJoin(x[1..], y, sep);
      var a := Split(x[1..], sep);
      var b := Split(y, sep);
      if x[0] == sep {
        Seqs.AppendAssoc([[]], a, b);
      } else {
        var rest := a + b;
        assert rest[0] == a[0];
        assert rest[1..] == a[1..] + b;
        Seqs.AppendAssoc([[x[0]] + a[0]], a[1..], b);
      }
    }
  }

  /** Split cuts at every separator and nowhere else: joining the pieces gives `s` back, and no piece holds a separator. */
  lemma {:induction false} SplitParts(s: Bytes, sep: Byte)
    ensures Join(Split(s, sep), sep) == s
    ensures forall i :: 0 <= i < |Split(s, sep)| ==> sep !in Split(s, sep)[i]
  {
    if s != [] {
      SplitParts(s[1..], sep);
      var rest := Split(s[1..], sep);
      if s[0] == sep {
        assert Split(s, sep)[1..] == rest;
        assert s == [sep] + s[1..];
      } else {
        var r := Split(s, sep);
        assert r[0] == [s[0]] + rest[0];
        if |rest| == 1 {
          assert s == [s[0]] + rest[0];
        } else {
          assert r[1..] == rest[1..];
          assert Join(rest, sep) == rest[0] + [sep] + Join(rest[1..], sep);
          assert s == [s[0]] + s[1..];
        }
        forall i | 0 <= i < |r| ensures sep !in r[i] {
          if i > 0 {
            assert r[i] == rest[i];
          }
        }
      }
    }
  }

  /** A separator anywhere gives at least two pieces. */
  lemma SplitHasSep(s: Bytes, sep: Byte)
    requires sep in s
    ensures |Split(s, sep)| >= 2
  {
    var i :| 0 <= i < |s| && s[i] == sep;
    Seqs.SplitAround(s, i);
    SplitJoin(s[..i], s[i + 1..], sep);
  }

  // ----- Lines -----

  /** A record appended to a log that ends at a line boundary adds exactly its line. */
  lemma LinesRecord(data: Bytes, line: Bytes)
    requires data == [] || data[|data| - 1] == Newline
    requires Newline !in line
    ensures Lines(data + line + [Newline]) == Lines(data) + [line]
  {
    SplitNoSep(line, Newline);
    if data == [] {
      SplitJoin(line, [], Newline);
      assert data + line + [Newline] == line + [Newline] + [];
    } else {
      var init := data[..|data| - 1];
      assert data == init + [Newline] + [];
      SplitJoin(init, [], Newline);
      assert data + line + [Newline] == init + [Newline] + (line + [Newline] + []);
      SplitJoin(init, line + [Newline] + [], Newline);
      SplitJoin(line, [], Newline);
      var a := Split(init, Newline);
      assert Split(data + line + [Newline], Newline) == a + [line, []];
      assert (a + [line, []])[..|a| + 1] == a + [line];
      assert (a + [[]])[..|a|] == a;
    }
  }

  /** The lines of an encoded log are the entries' texts, when no key or value holds a newline. */
  lemma {:induction false} LinesEncode(es: seq<Entry>)
    requires forall i :: 0 <= i < |es| ==> Newline !in es[i].key && Newline !in es[i].value
    ensures var ls := Lines(Encode(es));
      |ls| == |es| && forall i :: 0 <= i < |es| ==> ls[i] == Text(es[i])
  {
    if es != [] {
      var n := |es| - 1;
      var e := es[n];
      assert forall i :: 0 <= i < n ==> es[..n][i] == es[i];
      LinesEncode(es[..n]);
      TextNoNewline(e);
      var prefix := Encode(es[..n]);
      calc {
        Encode(es);
        prefix + Record(e.key, e.value);
        prefix + (Text(e) + [Newline]);
        { Seqs.AppendAssoc(prefix, Text(e), [Newline]); }
        prefix + Text(e) + [Newline];
      }
      LinesRecord(prefix, Text(e));
      var ls := Lines(Encode(es));
      assert ls == Lines(prefix) + [Text(e)];
      assert forall i :: 0 <= i < n ==> ls[i] == Lines(prefix)[i];
    }
  }

  /** A pair whose key and value hold no newline has a text without one. */
  lemma TextNoNewline(e: Entry)
    requires Newline !in e.key && Newline !in e.value
    ensures Newline !in Text(e)
  {
    forall j | 0 <= j < |Text(e)| ensures Text(e)[j] != Newline {
      if j < |e.key| {
        assert Text(e)[j] == e.key[j];
      } else if j > |e.key| {
        assert Text(e)[j] == e.value[j - |e.key| - 1];
      }
    }
  }

  // ----- Decoding -----

  /** The text of a clean pair is well formed and parses back to the pair. */
  lemma TextParses(e: Entry)
    requires Colon !in e.key && Colon !in e.value
    ensures WellformedLine(Text(e)) && LineEntry(Text(e)) == e
  {
    SplitJoin(e.key, e.value, Colon);
    SplitNoSep(e.key, Colon);
    SplitNoSep(e.value, Colon);
  }

  /** A ':' in the value gives the line a third field. */
  lemma TextColonValue(e: Entry)
    requires Colon !in e.key && Colon in e.value
    ensures !WellformedLine(Text(e))
  {
    SplitJoin(e.key, e.value, Colon);
    SplitNoSep(e.key, Colon);
    SplitHasSep(e.value, Colon);
  }

  /**
   * How LastWins answers a lookup: a key is present exactly when some pair
   * has it, and its value is that of the last such pair.
   */
  lemma {:induction false} LastWinsLookup(es: seq<Entry>, k: Bytes)
    ensures k in LastWins(es) <==> exists i :: 0 <= i < |es| && es[i].key == k
    ensures forall i :: 0 <= i < |es| && es[i].key == k && (forall j :: i < j < |es| ==> es[j].key != k) ==>
      k in LastWins(es) && LastWins(es)[k] == es[i].value
  {
    if es != [] {
      var n := |es| - 1;
      LastWinsLookup(es[..n], k);
      if es[n].key != k {
        forall i | 0 <= i < n && es[..n][i].key == k ensures es[i].key == k {
        }
        if k in LastWins(es) {
          var i :| 0 <= i < n && es[..n][i].key == k;
          assert es[i].key == k;
        }
        forall i | 0 <= i < n && es[i].key == k ensures es[..n][i].key == k {
        }
      }
    }
  }

  /** Over a log with no malformed line the lenient decoding agrees with the strict one. */
  lemma {:induction false} KeptAllWellformed(ls: seq<Bytes>)
    requires forall i :: 0 <= i < |ls| ==> WellformedLine(ls[i])
    ensures Kept(ls) == Parsed(ls)
  {
    if ls != [] {
      var n := |ls| - 1;
      KeptAllWellformed(ls[..n]);
      assert Parsed(ls) == Parsed(ls[..n]) + [LineEntry(ls[n])];
    }
  }

  lemma LenientAgrees(ls: seq<Bytes>)
    requires Decode(ls).Success?
    ensures DecodeLenient(ls) == Decode(ls).value
  {
    KeptAllWellformed(ls);
  }

  /**
   * The round trip: decoding the records of clean pairs succeeds with each
   * key's last value.
   */
  lemma RoundTrip(es: seq<Entry>)
    requires forall i :: 0 <= i < |es| ==> Clean(es[i])
    ensures Decode(Lines(Encode(es))) == Success(LastWins(es))
  {
    LinesEncode(es);
    var ls := Lines(Encode(es));
    forall i | 0 <= i < |ls| ensures WellformedLine(ls[i]) && LineEntry(ls[i]) == es[i] {
      TextParses(es[i]);
    }
    assert Parsed(ls) == es;
  }

  /**
   * Entry accepts a value holding ':' but the log then fails to decode: the
   * first such record, after clean ones, is reported by its line number.
   */
  lemma ColonInValueFails(es: seq<Entry>, i: nat)
    requires forall j :: 0 <= j < |es| ==> Newline !in es[j].key && Newline !in es[j].value
    requires i < |es| && forall j :: 0 <= j < i ==> Clean(es[j])
    requires Colon !in es[i].key && Colon in es[i].value
    ensures Decode(Lines(Encode(es))) == Failure(BadLine(i + 1))
  {
    LinesEncode(es);
    var ls := Lines(Encode(es));
    forall j | 0 <= j < i ensures WellformedLine(ls[j]) {
      TextParses(es[j]);
    }
    TextColonValue(es[i]);
    FirstBadAt(ls, i);
    DecodeAt(ls, i);
  }

  /** Without a malformed line Decode succeeds with every line's pair. */
  lemma DecodeAll(ls: seq<Bytes>)
    requires forall i :: 0 <= i < |ls| ==> WellformedLine(ls[i])
    ensures Decode(ls) == Success(LastWins(Parsed(ls)))
  {
  }

  /** Decode fails at the first malformed line. */
  lemma DecodeAt(ls: seq<Bytes>, i: nat)
    requires i < |ls| && FirstBad(ls) == i
    ensures Decode(ls) == Failure(BadLine(i + 1))
  {
    var d := Decode(ls);
    assert d.Failure? && d.error.BadLine? && d.error.line == i + 1;
  }

  /** The first malformed line is the first line that is not well formed. */
  lemma {:induction false} FirstBadAt(ls: seq<Bytes>, i: nat)
    requires i < |ls| && !WellformedLine(ls[i])
    requires forall j :: 0 <= j < i ==> WellformedLine(ls[j])
    ensures FirstBad(ls) == i
  {
    if i > 0 {
      FirstBadAt(ls[1..], i - 1);
    }
  }

  /** The first malformed line of a prefix is the first of the whole log. */
  lemma {:induction false} FirstBadPrefix(ls: seq<Bytes>, n: nat)
    requires n <= |ls| && FirstBad(ls[..n]) < n
    ensures FirstBad(ls) == FirstBad(ls[..n])
  {
    FirstBadAt(ls, FirstBad(ls[..n]));
  }

  /** A later pair overrides the table built so far. */
  lemma LastWinsSnoc(es: seq<Entry>, e: Entry)
    ensures LastWins(es + [e]) == LastWins(es)[e.key := e.value]
  {
    assert (es + [e])[..|es|] == es;
  }

  /** Appending a record to the log adds its pair at the end. */
  lemma EncodeSnoc(es: seq<Entry>, e: Entry)
    ensures Encode(es + [e]) == Encode(es) + Record(e.key, e.value)
  {
    assert (es + [e])[..|es|] == es;
  }
}
