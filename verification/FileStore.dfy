/**
 The entries file of the log (kt/lib/log.js, kt/tools/repair.js): one line an entry. The
 reader takes the file a window at a time, the writer may be cut short at any byte, and the
 repair tool drops a torn last line.
 */
module FileStore {
  import opened Options
  import opened Digests

  const NEWLINE := '\n'

  /** An entry with the byte range of its line. */
  datatype Stored<E> = Stored(entry: E, off: nat, len: nat)

  /** How a read of the file ends; the number is that of the line it stopped at, from 1. */
  datatype End = Done | Blank(line: nat) | Unterminated(line: nat) | NotJson(line: nat)

  datatype Read<E> = Read(got: seq<Stored<E>>, end: End)

  function EntriesOf<E>(got: seq<Stored<E>>): (es: seq<E>)
    ensures |es| == |got| && forall i :: 0 <= i < |got| ==> es[i] == got[i].entry
  {
    seq(|got|, i requires 0 <= i < |got| => got[i].entry)
  }

  /** Where the next newline is, or the length of the file. */
  function Newline(file: Bytes, from: nat): (nl: nat)
    requires from <= |file|
    ensures from <= nl <= |file|
    ensures forall i :: from <= i < nl ==> file[i] != NEWLINE
    ensures nl < |file| ==> file[nl] == NEWLINE
    decreases |file| - from
  {
    if from == |file| || file[from] == NEWLINE then from else Newline(file, from + 1)
  }

  lemma NewlineIs(file: Bytes, from: nat, nl: nat)
    requires from <= nl < |file| && file[nl] == NEWLINE
    requires forall i :: from <= i < nl ==> file[i] != NEWLINE
    ensures Newline(file, from) == nl
  {
  }

  lemma NoNewline(file: Bytes, from: nat)
    requires from <= |file|
    requires forall i :: from <= i < |file| ==> file[i] != NEWLINE
    ensures Newline(file, from) == |file|
  {
  }

  /** The plain split at newlines, from `off` on, `line` lines having been read. */
  function Plain<E>(file: Bytes, off: nat, line: nat, parse: Bytes -> Option<E>): (r: Read<E>)
    requires off <= |file|
    decreases |file| - off
  {
    var nl := Newline(file, off);
    if off == |file| then Read([], Done)
    else if nl == |file| then Read([], Unterminated(line + 1))
    else if nl == off then Read([], Blank(line + 1))
    else
      var e := parse(file[off..nl]);
      if e.None? then Read([], NotJson(line + 1))
      else After([Stored(e.value, off, nl - off)], Plain(file, nl + 1, line + 1, parse))
  }

  function After<E>(got: seq<Stored<E>>, r: Read<E>): Read<E> {
    Read(got + r.got, r.end)
  }

  lemma AfterNothing<E>(r: Read<E>)
    ensures After([], r) == r
  {
    assert [] + r.got == r.got;
  }

  lemma AfterEnd<E>(got: seq<Stored<E>>, end: End)
    ensures After(got, Read([], end)) == Read(got, end)
  {
    assert got + [] == got;
  }

  lemma AfterAfter<E>(a: seq<Stored<E>>, b: seq<Stored<E>>, r: Read<E>)
    ensures After(a, After(b, r)) == After(a + b, r)
  {
    assert a + (b + r.got) == a + b + r.got;
  }

  /** indexOf a newline in a buffer. */
  function IndexOf(rest: Bytes, from: nat): (r: Option<nat>)
    requires from <= |rest|
    ensures r.Some? ==> from <= r.value < |rest|
  {
    var nl := Newline(rest, from);
    if nl < |rest| then Some(nl) else None
  }

  /** A newline found in the buffer is the file's next one. */
  lemma InFile(file: Bytes, restAt: nat, at: nat, rest: Bytes, from: nat, nl: nat)
    requires restAt <= at <= |file| && rest == file[restAt..at]
    requires from <= nl < |rest| && IndexOf(rest, from) == Some(nl)
    ensures Newline(file, restAt + from) == restAt + nl && rest[from..nl] == file[restAt + from..restAt + nl]
  {
    forall i | restAt + from <= i < restAt + nl
      ensures file[i] != NEWLINE
    {
      assert file[i] == rest[i - restAt];
    }
    assert rest[nl] == NEWLINE;
    NewlineIs(file, restAt + from, restAt + nl);
    SliceOfSlice(file, restAt, at, from, nl);
  }

  lemma SliceOfSlice(s: Bytes, a: nat, b: nat, i: nat, j: nat)
    requires a <= b <= |s| && i <= j <= b - a
    ensures s[a..b][i..j] == s[a + i..a + j]
  {
    var t, u := s[a..b][i..j], s[a + i..a + j];
    assert |t| == |u| && forall k :: 0 <= k < |t| ==> t[k] == u[k];
  }

  /** A line at `off`, taken; or what stops there. */
  lemma PlainLine<E>(file: Bytes, off: nat, line: nat, parse: Bytes -> Option<E>, got: seq<Stored<E>>)
    requires off <= |file| && Newline(file, off) < |file|
    ensures Newline(file, off) == off ==> After(got, Plain(file, off, line, parse)) == Read(got, Blank(line + 1))
    ensures var nl := Newline(file, off);
      nl > off && !parse(file[off..nl]).Some? ==> After(got, Plain(file, off, line, parse)) == Read(got, NotJson(line + 1))
    ensures var nl := Newline(file, off);
      nl > off && parse(file[off..nl]).Some? ==>
        After(got, Plain(file, off, line, parse)) ==
        After(got + [Stored(parse(file[off..nl]).value, off, nl - off)], Plain(file, nl + 1, line + 1, parse))
  {
    hide After, Newline;
    var nl := Newline(file, off);
    AfterEnd(got, Blank(line + 1));
    AfterEnd(got, NotJson(line + 1));
    if nl > off && parse(file[off..nl]).Some? {
      AfterAfter(got, [Stored(parse(file[off..nl]).value, off, nl - off)], Plain(file, nl + 1, line + 1, parse));
    }
  }

  /** The equation of Plain at a newline. */
  lemma PlainStep<E>(file: Bytes, off: nat, line: nat, parse: Bytes -> Option<E>)
    requires off <= |file| && Newline(file, off) < |file|
    ensures var nl := Newline(file, off);
      Plain(file, off, line, parse) ==
      if nl == off then Read([], Blank(line + 1))
      else if parse(file[off..nl]).None? then Read([], NotJson(line + 1))
      else After([Stored(parse(file[off..nl]).value, off, nl - off)], Plain(file, nl + 1, line + 1, parse))
  {
    hide Newline, After;
  }

  /** The end of the file, with or without bytes after the last newline. */
  lemma PlainTail<E>(file: Bytes, off: nat, line: nat, parse: Bytes -> Option<E>, got: seq<Stored<E>>)
    requires off <= |file| && NEWLINE !in file[off..]
    ensures After(got, Plain(file, off, line, parse)) == Read(got, if off == |file| then Done else Unterminated(line + 1))
  {
    hide After;
    forall i | off <= i < |file|
      ensures file[i] != NEWLINE
    {
      assert file[i] == file[off..][i - off];
    }
    NoNewline(file, off);
    AfterEnd(got, if off == |file| then Done else Unterminated(line + 1));
  }

  /** What the loop knows: `rest` is the bytes from `restAt` up to `at`, the bytes read, and `got` is out of them up to `from`. */
  ghost predicate Reading<E>(file: Bytes, parse: Bytes -> Option<E>, got: seq<Stored<E>>, rest: Bytes, from: nat, restAt: nat, at: nat) {
    && restAt <= at <= |file| && from <= |rest|
    && rest == file[restAt..at]
    && After(got, Plain(file, restAt + from, |got|, parse)) == Plain(file, 0, 0, parse)
  }

  lemma ReadingStarts<E>(file: Bytes, parse: Bytes -> Option<E>)
    ensures Reading(file, parse, [], "", 0, 0, 0)
  {
    hide Plain;
    AfterNothing(Plain(file, 0, 0, parse));
  }

  lemma Refill<E>(file: Bytes, parse: Bytes -> Option<E>, got: seq<Stored<E>>, rest: Bytes, restAt: nat, at: nat, n: nat)
    requires Reading(file, parse, got, rest, 0, restAt, at) && at + n <= |file|
    ensures Reading(file, parse, got, rest + file[at..at + n], 0, restAt, at + n)
  {
    hide Plain, After;
    assert file[restAt..at] + file[at..at + n] == file[restAt..at + n];
  }

  lemma TakeLine<E>(file: Bytes, parse: Bytes -> Option<E>, got: seq<Stored<E>>, rest: Bytes, from: nat, restAt: nat, at: nat, nl: nat)
    requires Reading(file, parse, got, rest, from, restAt, at)
    requires IndexOf(rest, from) == Some(nl)
    ensures from <= nl < |rest| && at <= |file|
    ensures nl == from ==> Plain(file, 0, 0, parse) == Read(got, Blank(|got| + 1))
    ensures nl > from && !parse(rest[from..nl]).Some? ==> Plain(file, 0, 0, parse) == Read(got, NotJson(|got| + 1))
    ensures nl > from && parse(rest[from..nl]).Some? ==>
      Reading(file, parse, got + [Stored(parse(rest[from..nl]).value, restAt + from, nl - from)], rest, nl + 1, restAt, at)
  {
    hide *;
    ReadingMeans(file, parse, got, rest, from, restAt, at);
    InFile(file, restAt, at, rest, from, nl);
    PlainLine(file, restAt + from, |got|, parse, got);
    if nl > from && parse(rest[from..nl]).Some? {
      ReadingIs(file, parse, got + [Stored(parse(rest[from..nl]).value, restAt + from, nl - from)], rest, nl + 1, restAt, at);
    }
  }

  lemma ReadingMeans<E>(file: Bytes, parse: Bytes -> Option<E>, got: seq<Stored<E>>, rest: Bytes, from: nat, restAt: nat, at: nat)
    requires Reading(file, parse, got, rest, from, restAt, at)
    ensures restAt <= at <= |file| && rest == file[restAt..at] && |rest| == at - restAt && from <= |rest|
    ensures After(got, Plain(file, restAt + from, |got|, parse)) == Plain(file, 0, 0, parse)
  {
  }

  lemma ReadingIs<E>(file: Bytes, parse: Bytes -> Option<E>, got: seq<Stored<E>>, rest: Bytes, from: nat, restAt: nat, at: nat)
    requires restAt <= at <= |file| && rest == file[restAt..at] && from <= |rest|
    requires After(got, Plain(file, restAt + from, |got|, parse)) == Plain(file, 0, 0, parse)
    ensures Reading(file, parse, got, rest, from, restAt, at)
  {
  }

  lemma DropRead<E>(file: Bytes, parse: Bytes -> Option<E>, got: seq<Stored<E>>, rest: Bytes, from: nat, restAt: nat, at: nat)
    requires Reading(file, parse, got, rest, from, restAt, at)
    ensures Reading(file, parse, got, rest[from..], 0, restAt + from, at)
  {
    hide Plain, After;
    assert file[restAt..at][from..] == file[restAt + from..at];
  }

  lemma ReadingEnds<E>(file: Bytes, parse: Bytes -> Option<E>, got: seq<Stored<E>>, rest: Bytes, restAt: nat)
    requires Reading(file, parse, got, rest, 0, restAt, |file|) && NEWLINE !in rest
    ensures Plain(file, 0, 0, parse) == Read(got, if rest == "" then Done else Unterminated(|got| + 1))
  {
    hide Plain, After;
    assert file[restAt..] == rest;
    PlainTail(file, restAt, |got|, parse, got);
  }

  lemma NoIndex(rest: Bytes, from: nat)
    requires from <= |rest| && IndexOf(rest, from).None?
    ensures NEWLINE !in rest[from..]
  {
  }

  /** readAll: a window at a time, a read returning any non-empty part of it until the file ends. */
  method ReadAll<E>(file: Bytes, chunkBytes: nat, parse: Bytes -> Option<E>) returns (r: Read<E>)
    requires chunkBytes >= 1
    ensures r == Plain(file, 0, 0, parse)
  {
    hide *;
    var rest, restAt, at, got := "", 0, 0, [];
    var eof := false;
    ReadingStarts(file, parse);
    while !eof
      invariant at <= |file|
      invariant Reading(file, parse, got, rest, 0, restAt, at)
      invariant eof ==> at == |file| && rest == ""
      invariant NEWLINE !in rest
      decreases |file| - at, if eof then 0 else 1
    {
      var n: nat := 0;
      if at < |file| {
        n :| 1 <= n <= chunkBytes && at + n <= |file|;
      }
      Refill(file, parse, got, rest, restAt, at, n);
      rest := rest + file[at..at + n];
      at := at + n;
      eof := n == 0;
      var from := 0;
      var searching := true;
      while searching
        invariant from <= |rest|
        invariant Reading(file, parse, got, rest, from, restAt, at)
        invariant !searching ==> NEWLINE !in rest[from..]
        decreases |rest| - from, if searching then 1 else 0
      {
        var nl := IndexOf(rest, from);
        if nl.None? {
          NoIndex(rest, from);
          searching := false;
        } else {
          var off, len := restAt + from, nl.value - from;
          TakeLine(file, parse, got, rest, from, restAt, at, nl.value);
          if len == 0 {
            return Read(got, Blank(|got| + 1));
          }
          var e := parse(rest[from..nl.value]);
          if !e.Some? {
            return Read(got, NotJson(|got| + 1));
          }
          got := got + [Stored(e.value, off, len)];
          from := nl.value + 1;
        }
      }
      DropRead(file, parse, got, rest, from, restAt, at);
      rest := rest[from..];
      restAt := restAt + from;
      if eof && rest != "" {
        ReadingEnds(file, parse, got, rest, restAt);
        return Read(got, Unterminated(|got| + 1));
      }
    }
    ReadingEnds(file, parse, got, rest, restAt);
    r := Read(got, Done);
  }

  // --- What the lines are -------------------------------------------------------------------

  /** A line with its byte range: nothing but the line, up to its newline, parsed. */
  ghost predicate Indexes<E>(file: Bytes, s: Stored<E>, parse: Bytes -> Option<E>) {
    && s.len > 0 && s.off + s.len < |file|
    && file[s.off + s.len] == NEWLINE
    && NEWLINE !in file[s.off..s.off + s.len]
    && parse(file[s.off..s.off + s.len]) == Some(s.entry)
  }

  /** The lines index their bytes exactly and lie end to end from `off`; when all were read, to the end of the file. */
  lemma {:induction false} LinesExact<E>(file: Bytes, off: nat, line: nat, parse: Bytes -> Option<E>, i: nat)
    requires off <= |file| && i < |Plain(file, off, line, parse).got|
    ensures var got := Plain(file, off, line, parse).got;
      && Indexes(file, got[i], parse)
      && got[i].off == (if i == 0 then off else got[i - 1].off + got[i - 1].len + 1)
      && (i == |got| - 1 && Plain(file, off, line, parse).end == Done ==> got[i].off + got[i].len + 1 == |file|)
    decreases i
  {
    var nl := Newline(file, off);
    assert forall k :: 0 <= k < nl - off ==> file[off..nl][k] == file[off + k];
    var rest := Plain(file, nl + 1, line + 1, parse);
    assert Plain(file, off, line, parse).got[1..] == rest.got;
    if i > 0 {
      LinesExact(file, nl + 1, line + 1, parse, i - 1);
    } else if rest.end == Done && rest.got == [] {
      NothingLeft(file, nl + 1, line + 1, parse);
    }
  }

  /** Where the lines read end, and what stands there: nothing, no newline any more, a newline at once, or a line that does not parse. */
  lemma {:induction false} StopsExact<E>(file: Bytes, off: nat, line: nat, parse: Bytes -> Option<E>) returns (p: nat)
    requires off <= |file|
    ensures var r := Plain(file, off, line, parse);
      && p == (if r.got == [] then off else r.got[|r.got| - 1].off + r.got[|r.got| - 1].len + 1) && p <= |file|
      && match r.end
         case Done => p == |file|
         case Unterminated(n) => n == line + |r.got| + 1 && p < |file| && NEWLINE !in file[p..]
         case Blank(n) => n == line + |r.got| + 1 && p < |file| && file[p] == NEWLINE
         case NotJson(n) =>
           n == line + |r.got| + 1 && exists nl :: p < nl < |file| && file[nl] == NEWLINE && NEWLINE !in file[p..nl] && parse(file[p..nl]).None?
    decreases |file| - off
  {
    var nl := Newline(file, off);
    var r := Plain(file, off, line, parse);
    if off == |file| || nl == |file| || nl == off || parse(file[off..nl]).None? {
      p := off;
      assert r.got == [];
    } else {
      p := StopsExact(file, nl + 1, line + 1, parse);
      var rest := Plain(file, nl + 1, line + 1, parse);
      assert r == After([Stored(parse(file[off..nl]).value, off, nl - off)], rest);
      assert r.got[1..] == rest.got;
    }
  }

  lemma NothingLeft<E>(file: Bytes, off: nat, line: nat, parse: Bytes -> Option<E>)
    requires off <= |file| && Plain(file, off, line, parse) == Read([], Done)
    ensures off == |file|
  {
  }

  /** A whole file followed by more: its lines, then what the rest reads as. */
  lemma {:induction false} PlainExtends<E>(file: Bytes, more: Bytes, off: nat, line: nat, parse: Bytes -> Option<E>)
    requires off <= |file| && Plain(file, off, line, parse).end == Done
    ensures var got := Plain(file, off, line, parse).got;
      Plain(file + more, off, line, parse) == After(got, Plain(file + more, |file|, line + |got|, parse))
    decreases |file| - off
  {
    hide Plain, After, Newline;
    WholeSteps(file, off, line, parse);
    if off == |file| {
      AfterNothing(Plain(file + more, |file|, line, parse));
    } else {
      var nl := Newline(file, off);
      NewlineIs(file + more, off, nl);
      assert (file + more)[off..nl] == file[off..nl];
      PlainExtends(file, more, nl + 1, line + 1, parse);
      PlainStep(file + more, off, line, parse);
      var s := Stored(parse(file[off..nl]).value, off, nl - off);
      var rest := Plain(file, nl + 1, line + 1, parse).got;
      AfterAfter([s], rest, Plain(file + more, |file|, line + 1 + |rest|, parse));
    }
  }

  /** A file read to its end: nothing, or a good line and then a file read to its end. */
  lemma WholeSteps<E>(file: Bytes, off: nat, line: nat, parse: Bytes -> Option<E>)
    requires off <= |file| && Plain(file, off, line, parse).end == Done
    ensures off == |file| ==> Plain(file, off, line, parse).got == []
    ensures off < |file| ==>
      var nl := Newline(file, off);
      off < nl < |file| && parse(file[off..nl]).Some? && Plain(file, nl + 1, line + 1, parse).end == Done &&
      Plain(file, off, line, parse).got == [Stored(parse(file[off..nl]).value, off, nl - off)] + Plain(file, nl + 1, line + 1, parse).got
  {
    hide Newline;
  }

  predicate GoodLine(text: Bytes) {
    text != "" && NEWLINE !in text
  }

  /** The bytes an append writes for a line. */
  function Line(text: Bytes): (w: Bytes)
    ensures |w| == |text| + 1 && w[|text|] == NEWLINE && w[..|text|] == text
  {
    text + [NEWLINE]
  }

  /** Appending a line to a whole file adds exactly that entry, at the end. */
  lemma AppendAddsOne<E>(file: Bytes, text: Bytes, parse: Bytes -> Option<E>)
    requires Plain(file, 0, 0, parse).end == Done && GoodLine(text) && parse(text).Some?
    ensures Plain(file + Line(text), 0, 0, parse) ==
      Read(Plain(file, 0, 0, parse).got + [Stored(parse(text).value, |file|, |text|)], Done)
  {
    hide *;
    var got := Plain(file, 0, 0, parse).got;
    PlainExtends(file, Line(text), 0, 0, parse);
    AppendedReads(file, text, parse, got);
  }

  lemma AppendedReads<E>(file: Bytes, text: Bytes, parse: Bytes -> Option<E>, got: seq<Stored<E>>)
    requires GoodLine(text) && parse(text).Some?
    ensures After(got, Plain(file + Line(text), |file|, |got|, parse)) ==
      Read(got + [Stored(parse(text).value, |file|, |text|)], Done)
  {
    hide *;
    var longer, end := LineEnds(file, text);
    ReadsLast(longer, |file|, end, text, parse, got);
  }

  lemma LineEnds(file: Bytes, text: Bytes) returns (longer: Bytes, end: nat)
    requires GoodLine(text)
    ensures longer == file + Line(text) && end == |file| + |text|
    ensures |text| > 0 && |longer| == end + 1 && longer[end + 1..] == ""
    ensures Newline(longer, |file|) == end && longer[|file|..end] == text
  {
    hide *;
    longer, end := file + Line(text), |file| + |text|;
    GoodMeans(text);
    LastLine(file, Line(text), |text|);
  }

  lemma GoodMeans(text: Bytes)
    requires GoodLine(text)
    ensures |text| > 0 && forall i :: 0 <= i < |text| ==> text[i] != NEWLINE
  {
  }

  lemma LastLine(file: Bytes, w: Bytes, n: nat)
    requires |w| == n + 1 && w[n] == NEWLINE && forall i :: 0 <= i < n ==> w[..n][i] != NEWLINE
    ensures |file + w| == |file| + n + 1 && (file + w)[|file| + n + 1..] == ""
    ensures Newline(file + w, |file|) == |file| + n && (file + w)[|file|..|file| + n] == w[..n]
  {
    hide Newline;
    var longer := file + w;
    assert forall i :: 0 <= i < n ==> w[i] == w[..n][i];
    assert forall i :: |file| <= i < |file| + n ==> longer[i] == w[i - |file|];
    NewlineIs(longer, |file|, |file| + n);
  }

  lemma ReadsLast<E>(longer: Bytes, off: nat, end: nat, text: Bytes, parse: Bytes -> Option<E>, got: seq<Stored<E>>)
    requires off < end && end + 1 == |longer| && longer[end + 1..] == ""
    requires Newline(longer, off) == end && longer[off..end] == text && parse(text).Some?
    ensures After(got, Plain(longer, off, |got|, parse)) == Read(got + [Stored(parse(text).value, off, end - off)], Done)
  {
    hide *;
    PlainLine(longer, off, |got|, parse, got);
    PlainTail(longer, end + 1, |got| + 1, parse, got + [Stored(parse(text).value, off, end - off)]);
  }

  /** A line cut short is read as one thing only: a last line with no newline. */
  lemma TornIsUnterminated<E>(file: Bytes, torn: Bytes, parse: Bytes -> Option<E>)
    requires Plain(file, 0, 0, parse).end == Done && GoodLine(torn)
    ensures Plain(file + torn, 0, 0, parse) ==
      Read(Plain(file, 0, 0, parse).got, Unterminated(|Plain(file, 0, 0, parse).got| + 1))
  {
    hide Plain, After;
    PlainExtends(file, torn, 0, 0, parse);
    assert (file + torn)[|file|..] == torn;
    PlainTail(file + torn, |file|, |Plain(file, 0, 0, parse).got|, parse, Plain(file, 0, 0, parse).got);
  }

  /** A line written after one that was cut short and not taken back: the two are read as one, and a repair cuts nothing. */
  lemma SplicedLine<E>(file: Bytes, torn: Bytes, text: Bytes, parse: Bytes -> Option<E>)
    requires Plain(file, 0, 0, parse).end == Done && GoodLine(torn) && GoodLine(text)
    ensures var got, after := Plain(file, 0, 0, parse).got, file + torn + Line(text);
      && Complete(after) == |after|
      && Plain(after, 0, 0, parse) ==
        if parse(torn + text).None? then Read(got, NotJson(|got| + 1))
        else Read(got + [Stored(parse(torn + text).value, |file|, |torn + text|)], Done)
  {
    hide Plain, Complete;
    var got, after := Plain(file, 0, 0, parse).got, file + torn + Line(text);
    assert after == file + Line(torn + text);
    CompleteIs(after, |after|);
    if parse(torn + text).Some? {
      AppendAddsOne(file, torn + text, parse);
    } else {
      PlainExtends(file, Line(torn + text), 0, 0, parse);
      var longer, end := LineEnds(file, torn + text);
      UnreadLine(longer, |file|, end, |got|, parse, got);
    }
  }

  lemma UnreadLine<E>(longer: Bytes, off: nat, end: nat, line: nat, parse: Bytes -> Option<E>, got: seq<Stored<E>>)
    requires off < end < |longer| && Newline(longer, off) == end && parse(longer[off..end]).None?
    ensures After(got, Plain(longer, off, line, parse)) == Read(got, NotJson(line + 1))
  {
    hide Newline;
    assert got + [] == got;
  }

  // --- Repair ----------------------------------------------------------------------------------

  /** How many bytes the complete lines take: up to and with the last newline. */
  function Complete(file: Bytes): (k: nat)
    ensures k <= |file|
    ensures k > 0 ==> file[k - 1] == NEWLINE
    ensures forall i :: k <= i < |file| ==> file[i] != NEWLINE
  {
    if file == "" then 0
    else if file[|file| - 1] == NEWLINE then |file|
    else Complete(file[..|file| - 1])
  }

  lemma CompleteIs(file: Bytes, k: nat)
    requires k <= |file| && (k > 0 ==> file[k - 1] == NEWLINE) && forall i :: k <= i < |file| ==> file[i] != NEWLINE
    ensures Complete(file) == k
  {
    var c := Complete(file);
    assert k > 0 ==> file[k - 1] == NEWLINE;
    assert c > 0 ==> file[c - 1] == NEWLINE;
  }

  /** lastIndexOf a newline in a buffer. */
  function LastIndexOf(b: Bytes): (i: int)
    ensures -1 <= i < |b|
    ensures i >= 0 ==> b[i] == NEWLINE
    ensures forall j :: i < j < |b| ==> b[j] != NEWLINE
  {
    if b == "" then -1
    else if b[|b| - 1] == NEWLINE then |b| - 1
    else LastIndexOf(b[..|b| - 1])
  }

  /** lastNewline: backwards, a window at a time; -1 when there is none. */
  method LastNewline(file: Bytes, window: nat) returns (nl: int)
    requires window >= 1
    ensures nl == Complete(file) - 1
  {
    hide Complete;
    var end := |file|;
    while end > 0
      invariant 0 <= end <= |file|
      invariant forall i :: end <= i < |file| ==> file[i] != NEWLINE
    {
      var at := if end > window then end - window else 0;
      var i := LastIndexOf(file[at..end]);
      if i >= 0 {
        CompleteIs(file, at + i + 1) by {
          assert forall k :: at + i + 1 <= k < end ==> file[k] == file[at..end][k - at];
        }
        return at + i;
      }
      assert forall k :: at <= k < end ==> file[k] == file[at..end][k - at];
      end := at;
    }
    CompleteIs(file, 0);
    nl := -1;
  }

  /** The repaired file keeps every line that was read before, and reads to its end unless a line inside it is bad. */
  lemma {:induction false} RepairKeeps<E>(file: Bytes, off: nat, line: nat, parse: Bytes -> Option<E>)
    requires off <= Complete(file)
    ensures var r := Plain(file, off, line, parse);
      Plain(file[..Complete(file)], off, line, parse) == Read(r.got, if r.end.Unterminated? then Done else r.end)
    decreases Complete(file) - off
  {
    hide Plain, Complete;
    var k := Complete(file);
    var kept := file[..k];
    if off == k {
      NoNewline(file, off);
      assert file[off..] == file[k..];
      PlainTail(file, off, line, parse, []);
      PlainTail(kept, off, line, parse, []);
      AfterNothing(Plain(file, off, line, parse));
      AfterNothing(Plain(kept, off, line, parse));
    } else {
      assert file[k - 1] == NEWLINE;
      var nl := Newline(file, off);
      NewlineIs(kept, off, nl);
      assert kept[off..nl] == file[off..nl];
      PlainStep(file, off, line, parse);
      PlainStep(kept, off, line, parse);
      if nl > off {
        RepairKeeps(file, nl + 1, line + 1, parse);
      }
    }
  }

  /** What an append that was cut short left behind is all that a repair removes. */
  lemma RepairUndoes<E>(file: Bytes, torn: Bytes, parse: Bytes -> Option<E>)
    requires Plain(file, 0, 0, parse).end == Done && NEWLINE !in torn
    ensures Complete(file + torn) == |file| && (file + torn)[..Complete(file + torn)] == file
  {
    hide Complete;
    WholeEnds(file, 0, 0, parse);
    assert forall i :: |file| <= i < |file + torn| ==> (file + torn)[i] == torn[i - |file|];
    CompleteIs(file + torn, |file|);
  }

  lemma {:induction false} WholeEnds<E>(file: Bytes, off: nat, line: nat, parse: Bytes -> Option<E>)
    requires off <= |file| && Plain(file, off, line, parse).end == Done
    ensures off < |file| ==> file[|file| - 1] == NEWLINE
    decreases |file| - off
  {
    var nl := Newline(file, off);
    if off < |file| && nl + 1 < |file| {
      WholeEnds(file, nl + 1, line + 1, parse);
    }
  }

  // --- The file -----------------------------------------------------------------------------------

  /**
   What the disk does in one operation: how much each write puts of what it is given (nothing is
   a write that throws; past the list, all of it), and whether the fsync, the truncation and the
   replacing of the head file throw.
   */
  datatype Disk = Disk(writes: seq<nat>, fsyncFails: bool, truncateFails: bool, headFails: bool)

  /** Whether so many bytes get written by these writes. */
  predicate Puts(writes: seq<nat>, n: nat)
    decreases |writes|
  {
    n == 0 || writes == [] || (writes[0] > 0 && Puts(writes[1..], if writes[0] < n then n - writes[0] else 0))
  }

  function Total(writes: seq<nat>): nat {
    if writes == [] then 0 else writes[0] + Total(writes[1..])
  }

  /** They do exactly if no write takes nothing before all is written. */
  lemma {:induction false} PutsExact(writes: seq<nat>, n: nat)
    ensures Puts(writes, n) <==> forall i :: 0 <= i < |writes| && writes[i] == 0 ==> Total(writes[..i]) >= n
    decreases |writes|
  {
    if writes != [] {
      var rest, left := writes[1..], if writes[0] < n then n - writes[0] else 0;
      PutsExact(rest, left);
      assert Total(writes[..0]) == 0;
      forall i | 1 <= i < |writes|
        ensures writes[i] == rest[i - 1] && Total(writes[..i]) == writes[0] + Total(rest[..i - 1])
      {
        assert writes[..i][1..] == rest[..i - 1];
      }
      forall j | 0 <= j < |rest|
        ensures writes[j + 1] == rest[j] && Total(writes[..j + 1]) == writes[0] + Total(rest[..j])
      {
      }
      assert n == 0 ==> Puts(writes, n);
    }
  }

  /** What an append that threw left: the file as it was, or, when the truncation threw too, a part of the line. */
  datatype Appended = Wrote(off: nat, len: nat) | Restored | Torn

  /** A directory at one time: the bytes of the entries file, and what stands beside it. */
  datatype Snapshot<H> = Snapshot(data: Bytes, head: H)

  /** The states a file goes through while these bytes land on its end. */
  function Landing<H>(s: Snapshot<H>, bytes: Bytes): (r: seq<Snapshot<H>>)
    ensures |r| == |bytes| && forall i :: 0 <= i < |r| ==> r[i] == Snapshot(s.data + bytes[..i + 1], s.head)
  {
    seq(|bytes|, i requires 0 <= i < |bytes| => Snapshot(s.data + bytes[..i + 1], s.head))
  }

  /** Some of these bytes on the end of what was there, and the rest as it was. */
  ghost predicate Spooling<H>(was: Snapshot<H>, bytes: Bytes, s: Snapshot<H>) {
    s.head == was.head && exists put :: 0 <= put <= |bytes| && s.data == was.data + bytes[..put]
  }

  /** Every state since the first ones is such a one. */
  ghost predicate AllSpooling<H>(before: seq<Snapshot<H>>, after: seq<Snapshot<H>>, was: Snapshot<H>, bytes: Bytes) {
    before <= after && forall i :: |before| <= i < |after| ==> Spooling(was, bytes, after[i])
  }

  lemma SpoolingStart<H>(states: seq<Snapshot<H>>, was: Snapshot<H>, bytes: Bytes)
    ensures AllSpooling(states, states, was, bytes)
  {
  }

  lemma SpoolingMore<H>(before: seq<Snapshot<H>>, after: seq<Snapshot<H>>, was: Snapshot<H>, bytes: Bytes, now: Snapshot<H>,
                        put: nat, n: nat)
    requires AllSpooling(before, after, was, bytes) && put + n <= |bytes|
    requires now == Snapshot(was.data + bytes[..put], was.head)
    ensures AllSpooling(before, after + Landing(now, bytes[put..put + n]), was, bytes)
  {
    var more := Landing(now, bytes[put..put + n]);
    forall i | 0 <= i < |more|
      ensures Spooling(was, bytes, more[i])
    {
      assert bytes[..put] + bytes[put..put + n][..i + 1] == bytes[..put + i + 1];
      assert more[i].data == was.data + bytes[..put + i + 1];
    }
  }

  lemma SpoolingBack<H>(before: seq<Snapshot<H>>, after: seq<Snapshot<H>>, was: Snapshot<H>, bytes: Bytes)
    requires AllSpooling(before, after, was, bytes)
    ensures AllSpooling(before, after + [was], was, bytes)
  {
    assert was.data + bytes[..0] == was.data;
  }

  /**
   A directory as all the states it has been in: whatever is done to it adds states, so that a
   crash can leave any of them. Bytes land one at a time; the head file is replaced at once.
   */
  class Directory<H> {
    const first: Snapshot<H>
    var later: seq<Snapshot<H>>

    constructor (s: Snapshot<H>)
      ensures first == s && later == [] && Now() == s
    {
      first, later := s, [];
    }

    /** The state after so many changes. */
    function At(n: nat): Snapshot<H>
      requires n <= |later|
      reads this
    {
      if n == 0 then first else later[n - 1]
    }

    function Now(): Snapshot<H>
      reads this
    {
      At(|later|)
    }

    function Data(): Bytes
      reads this
    {
      Now().data
    }

    function Head(): H
      reads this
    {
      Now().head
    }

    lemma NowIs()
      ensures Now() == Snapshot(Data(), Head()) == At(|later|)
      ensures Now() == if later == [] then first else later[|later| - 1]
    {
    }

    /** A write of so many bytes. */
    method Put(bytes: Bytes)
      modifies this
      ensures later == old(later) + Landing(old(Now()), bytes)
      ensures Data() == old(Data()) + bytes && Head() == old(Head())
    {
      later := later + Landing(Now(), bytes);
      assert bytes[..|bytes|] == bytes;
      assert old(Data()) + "" == old(Data());
    }

    method Truncate(n: nat)
      requires n <= |Data()|
      modifies this
      ensures later == old(later) + [Snapshot(old(Data())[..n], old(Head()))]
      ensures Data() == old(Data())[..n] && Head() == old(Head())
    {
      later := later + [Snapshot(Data()[..n], Head())];
    }

    /** A new head file in place of the old one: the one or the other, never half of either. */
    method Replace(h: H)
      modifies this
      ensures later == old(later) + [Snapshot(old(Data()), h)]
      ensures Data() == old(Data()) && Head() == h
    {
      later := later + [Snapshot(Data(), h)];
    }

    /**
     append: a write may put any part of what it is given, and it, the fsync and the truncation may
     each throw. All the while the file is what it was with some of the line.
     */
    method Append(text: Bytes, disk: Disk) returns (r: Appended)
      modifies this
      ensures r.Wrote? <==> Puts(disk.writes, |text| + 1) && !disk.fsyncFails
      ensures r.Wrote? ==> Data() == old(Data()) + Line(text) && r == Wrote(|old(Data())|, |text|)
      ensures r.Restored? ==> Data() == old(Data())
      ensures r.Torn? <==> !r.Wrote? && disk.truncateFails
      ensures r.Torn? ==> exists put :: 0 <= put <= |text| + 1 && Data() == old(Data()) + Line(text)[..put]
      ensures Head() == old(Head()) && AllSpooling(old(later), later, old(Now()), Line(text))
    {
      hide AllSpooling, Spooling, Landing, Now, Data, Head, At;
      ghost var was := Now();
      var off, written := |Data()|, Line(text);
      var put, k, thrown := 0, 0, false;
      assert disk.writes[0..] == disk.writes;
      NowIs();
      SpoolingStart(later, was, written);
      assert was.data + written[..0] == was.data;
      while put < |written| && !thrown
        invariant 0 <= put <= |written| && 0 <= k <= |disk.writes|
        invariant Data() == was.data + written[..put] && Head() == was.head && AllSpooling(old(later), later, was, written)
        invariant Puts(disk.writes, |written|) <==> !thrown && Puts(disk.writes[k..], |written| - put)
        decreases |written| - put, if thrown then 0 else 1
      {
        var n := if k < |disk.writes| && disk.writes[k] < |written| - put then disk.writes[k] else |written| - put;
        NowIs();
        SpoolingMore(old(later), later, was, written, Now(), put, n);
        Put(written[put..put + n]);
        assert written[..put + n] == written[..put] + written[put..put + n];
        put := put + n;
        thrown := n == 0;
        if k < |disk.writes| {
          assert disk.writes[k..][1..] == disk.writes[k + 1..];
          k := k + 1;
        }
      }
      assert written[..|written|] == written;
      thrown := thrown || disk.fsyncFails;
      if thrown {
        if disk.truncateFails {
          return Torn;
        }
        assert (was.data + written[..put])[..off] == was.data;
        SpoolingBack(old(later), later, was, written);
        Truncate(off);
        return Restored;
      }
      r := Wrote(off, |written| - 1);
    }

    /** readValue: the bytes of one line again, or an error when the file ends before them. */
    method ReadValue(off: nat, len: nat) returns (r: Option<Bytes>)
      ensures r == if off + len <= |Data()| || len == 0 then Some(Slice(Data(), off, len)) else None
    {
      var data := Data();
      var buf, got := "", 0;
      while got < len
        invariant 0 <= got <= len
        invariant got > 0 ==> off + got <= |data|
        invariant buf == Slice(data, off, got)
      {
        if off + got >= |data| {
          return None;
        }
        var n :| 1 <= n <= len - got && off + got + n <= |data|;
        assert data[off..off + got + n] == data[off..off + got] + data[off + got..off + got + n];
        buf := buf + data[off + got..off + got + n];
        got := got + n;
      }
      r := Some(buf);
    }

    /** repair.js with --write: a torn last line is cut off, and nothing else is touched. */
    method Repair(window: nat) returns (cut: bool)
      requires window >= 1
      modifies this
      ensures Data() == old(Data())[..Complete(old(Data()))] && Head() == old(Head())
      ensures cut <==> Data() != old(Data())
      ensures later == old(later) + (if cut then [Now()] else [])
    {
      hide Now, Data, Head, At;
      NowIs();
      var data := Data();
      if data == "" {
        assert old(later) + [] == old(later);
        return false;
      }
      var nl := LastNewline(data, window);
      var tail := |data| - (nl + 1);
      if tail == 0 {
        assert data[..|data|] == data && old(later) + [] == old(later);
        return false;
      }
      Truncate(nl + 1);
      NowIs();
      cut := true;
    }
  }

  function Slice(data: Bytes, off: nat, len: nat): Bytes {
    if off + len <= |data| then data[off..off + len] else ""
  }
}
