/**
 The loops that stuff and unstuff in place, shifting the rest of the buffer by one byte at every escape.
 */
module StuffingLoops {
  import opened Wrappers
  import opened Seqs
  import opened WordBits
  import opened Stuffing

  /** The first place in buf[from..from + len] that holds c. */
  method FindByte(buf: array<Byte>, from: nat, c: Byte, len: nat) returns (at: Option<nat>)
    requires from + len <= buf.Length
    ensures at.None? ==> c !in buf[from..from + len]
    ensures at.Some? ==> from <= at.value < from + len && buf[at.value] == c && c !in buf[from..at.value]
  {
    var i := from;
    while i < from + len
      invariant from <= i <= from + len
      invariant c !in buf[from..i]
    {
      if buf[i] == c {
        return Some(i);
      }
      assert buf[from..i + 1] == buf[from..i] + [buf[i]];
      i := i + 1;
    }
    return None;
  }

  /** Moves buf[idx..idx + len] up by one place, with two bytes of memory used in turn. */
  method ShiftRight(buf: array<Byte>, idx: nat, len: nat)
    requires idx + len < buf.Length
    modifies buf
    ensures buf[idx + 1..idx + 1 + len] == old(buf[idx..idx + len])
    ensures forall k :: 0 <= k < buf.Length && !(idx < k <= idx + len) ==> buf[k] == old(buf[k])
  {
    ghost var s := buf[..];
    var orig := idx;
    var backup := new Byte[2];
    var c := 1;
    backup[c] := buf[orig];
    orig := orig + 1;
    c := 1 - c;
    var i := 0;
    while i < len
      invariant 0 <= i <= len && (c == 0 || c == 1)
      invariant orig == idx + 1
      invariant backup[1 - c] == s[idx + i]
      invariant buf[orig..orig + i] == s[idx..idx + i]
      invariant forall k :: 0 <= k < buf.Length && !(orig <= k < orig + i) ==> buf[k] == s[k]
    {
      backup[c] := buf[orig + i];
      c := 1 - c;
      buf[orig + i] := backup[c];
      i := i + 1;
    }
  }

  /** Moves buf[off + n..off + len] down by n places and clears the last n. */
  method ShiftLeft(buf: array<Byte>, off: nat, n: nat, len: nat)
    requires n <= len && off + len <= buf.Length
    modifies buf
    ensures forall k :: off <= k < off + len - n ==> buf[k] == old(buf[k + n])
    ensures forall k :: off + len - n <= k < off + len ==> buf[k] == 0
    ensures forall k :: 0 <= k < buf.Length && !(off <= k < off + len) ==> buf[k] == old(buf[k])
  {
    var i := n;
    while i < len
      invariant n <= i <= len
      invariant forall k :: off <= k < off + i - n ==> buf[k] == old(buf[k + n])
      invariant forall k :: 0 <= k < buf.Length && !(off <= k < off + i - n) ==> buf[k] == old(buf[k])
    {
      buf[off + i - n] := buf[off + i];
      i := i + 1;
    }
    i := len - n;
    while i < len
      invariant len - n <= i <= len
      invariant forall k :: off <= k < off + len - n ==> buf[k] == old(buf[k + n])
      invariant forall k :: off + len - n <= k < off + i ==> buf[k] == 0
      invariant forall k :: 0 <= k < buf.Length && !(off <= k < off + len) ==> buf[k] == old(buf[k])
    {
      buf[off + i] := 0;
      i := i + 1;
    }
  }

  /** p is where the first byte of s that has to be escaped is, and code what it is escaped to. */
  ghost predicate IsNextToken(s: seq<Byte>, p: int, code: Byte) {
    && 0 <= p < |s|
    && Special(s[p]) && code == Code(s[p])
    && forall k :: 0 <= k < p ==> !Special(s[k])
  }

  ghost predicate NoToken(s: seq<Byte>) {
    forall k :: 0 <= k < |s| ==> !Special(s[k])
  }

  /** The nearest byte in buf[from..from + len] that has to be escaped. */
  method NextToken(buf: array<Byte>, from: nat, len: nat) returns (at: Option<nat>, code: Byte)
    requires from + len <= buf.Length
    ensures at.None? ==> NoToken(buf[from..from + len])
    ensures at.Some? ==> at.value >= from && IsNextToken(buf[from..from + len], at.value - from, code)
  {
    code := 0;
    at := FindByte(buf, from, MARK, len);
    if at.None? {
      at := FindByte(buf, from, ESC, len);
      assert forall k :: from <= k < from + len ==> buf[k] in buf[from..from + len];
      if at.Some? {
        code := ESC_ESC;
        assert forall k :: from <= k < at.value ==> buf[k] in buf[from..at.value];
      }
    } else {
      var escape := FindByte(buf, from, ESC, at.value - from);
      assert forall k :: from <= k < at.value ==> buf[k] in buf[from..at.value];
      if escape.Some? {
        code := ESC_ESC;
        assert forall k :: from <= k < escape.value ==> buf[k] in buf[from..escape.value];
        at := escape;
      } else {
        code := ESC_MARK;
      }
    }
  }

  /** Writes the escape and its code over buf[at], moving the rest bytes that follow up by one. */
  method EscapeAt(buf: array<Byte>, at: nat, code: Byte, rest: nat)
    requires at + 1 + rest < buf.Length
    modifies buf
    ensures buf[at] == ESC && buf[at + 1] == code
    ensures buf[at + 2..at + 2 + rest] == old(buf[at + 1..at + 1 + rest])
    ensures forall k :: 0 <= k < buf.Length && !(at <= k < at + 2 + rest) ==> buf[k] == old(buf[k])
  {
    buf[at] := ESC;
    assert buf[at + 1..at + 1 + rest] == old(buf[at + 1..at + 1 + rest]);
    ShiftRight(buf, at + 1, rest);
    buf[at + 1] := code;
  }

  /** One escape more: the plain bytes, the escape, and what is left to stuff. */
  lemma EscapeStep(todo: seq<Byte>, p: nat, code: Byte, stuffed: seq<Byte>, rest: seq<Byte>)
    requires IsNextToken(todo, p, code)
    requires stuffed == Stuff(todo) && rest == Stuff(todo[p + 1..])
    ensures stuffed == todo[..p] + ([ESC, code] + rest)
    ensures |stuffed| > |todo|
  {
    SplitAt(todo, p);
    EscapeFirst(todo, todo[..p], todo[p], todo[p + 1..], stuffed, rest);
    StuffLength(todo[p + 1..]);
  }

  lemma EscapeFirst(todo: seq<Byte>, plain: seq<Byte>, x: Byte, after: seq<Byte>, stuffed: seq<Byte>, rest: seq<Byte>)
    requires Special(x)
    requires forall k :: 0 <= k < |plain| ==> !Special(plain[k])
    requires todo == plain + ([x] + after)
    requires stuffed == Stuff(todo) && rest == Stuff(after)
    ensures stuffed == plain + ([ESC, Code(x)] + rest)
  {
    StuffFirstSpecial(plain, x, after);
  }

  lemma Regroup<T>(goal: seq<T>, done: seq<T>, stuffed: seq<T>, plain: seq<T>, x: seq<T>, rest: seq<T>)
    requires goal == done + stuffed && stuffed == plain + (x + rest)
    ensures goal == (done + (plain + x)) + rest
  {
  }

  /** What is done, together with what is left when it is stuffed, is the goal. */
  ghost predicate Progress(done: seq<Byte>, todo: seq<Byte>, goal: seq<Byte>) {
    goal == done + Stuff(todo)
  }

  lemma ProgressEscapes(done: seq<Byte>, todo: seq<Byte>, p: nat, code: Byte, done': seq<Byte>, todo': seq<Byte>,
                        goal: seq<Byte>)
    requires Progress(done, todo, goal) && IsNextToken(todo, p, code)
    requires done' == done + (todo[..p] + [ESC, code]) && todo' == todo[p + 1..]
    ensures Progress(done', todo', goal)
    ensures |goal| > |done| + |todo|
  {
    var stuffed, rest := Stuff(todo), Stuff(todo');
    EscapeStep(todo, p, code, stuffed, rest);
    Regroup(goal, done, stuffed, todo[..p], [ESC, code], rest);
  }

  lemma ProgressStarts(done: seq<Byte>, todo: seq<Byte>, goal: seq<Byte>)
    requires done == [] && goal == Stuff(todo)
    ensures Progress(done, todo, goal)
  {
    assert [] + goal == goal;
  }

  lemma ProgressEnds(done: seq<Byte>, todo: seq<Byte>, goal: seq<Byte>)
    requires Progress(done, todo, goal) && todo == []
    ensures goal == done
  {
    assert done + [] == done;
  }

  /** Bytes that need no escape are done as they are. */
  lemma ProgressSkips(s: seq<Byte>, from: nat, at: nat, end: nat, goal: seq<Byte>)
    requires from <= at <= end <= |s|
    requires Progress(s[from..at], s[at..end], goal) && NoToken(s[at..end])
    ensures Progress(s[from..end], s[end..end], goal)
  {
    StuffPlain(s[at..end]);
    Join(s, from, at, end);
    assert s[from..end] + [] == s[from..end];
  }

  /** Escapes the token, which is p bytes into what is left. */
  method EscapeToken(buf: array<Byte>, idx: nat, left: nat, p: nat, code: Byte) returns (idx': nat, left': nat)
    requires 1 <= idx && p < left && idx + left < buf.Length
    modifies buf
    ensures left' == left - (p + 1) && idx' == idx + p + 2
    ensures buf[1..idx'] == old(buf[1..idx]) + (old(buf[idx..idx + left])[..p] + [ESC, code])
    ensures buf[idx'..idx' + left'] == old(buf[idx..idx + left])[p + 1..]
    ensures buf[0] == old(buf[0])
    ensures forall k :: idx + left + 1 <= k < buf.Length ==> buf[k] == old(buf[k])
  {
    ghost var before := buf[..];
    var at := idx + p;
    left' := left - (p + 1);
    EscapeAt(buf, at, code, left');
    idx' := at + 2;
    ghost var after := buf[..];
    Widened(before, after, 1, at, [ESC, code], left');
    Pieces(before, 1, idx, idx + left, p);
    assert buf[1..idx'] == after[1..at + 2];
    assert buf[idx'..idx' + left'] == after[at + 2..at + 2 + left'] == before[at + 1..at + 1 + left'];
  }

  lemma Pieces<T>(s: seq<T>, a: nat, b: nat, c: nat, p: nat)
    requires a <= b <= c <= |s| && p < c - b
    ensures s[a..b + p] == s[a..b] + s[b..c][..p]
    ensures s[b..c][p + 1..] == s[b + p + 1..c]
    ensures forall x: seq<T> :: s[a..b + p] + x == s[a..b] + (s[b..c][..p] + x)
  {
  }

  /** One turn of the stuffing loop: the next byte that needs it is escaped if there is room, or the rest is plain. */
  method StuffNext(buf: array<Byte>, idx: nat, left: nat, size: nat, ghost goal: seq<Byte>)
    returns (ok: bool, idx': nat, left': nat)
    requires 1 <= idx && 0 < left && idx + left + 1 <= size <= buf.Length
    requires Progress(buf[1..idx], buf[idx..idx + left], goal)
    modifies buf
    ensures ok ==> 1 <= idx' && left' < left && idx' + left' + 1 <= size
    ensures ok ==> Progress(buf[1..idx'], buf[idx'..idx' + left'], goal)
    ensures !ok ==> |goal| + 2 > size
    ensures buf[0] == old(buf[0])
    ensures forall k :: size <= k < buf.Length ==> buf[k] == old(buf[k])
  {
    var token, code := NextToken(buf, idx, left);
    if token.None? {
      ProgressSkips(buf[..], 1, idx, idx + left, goal);
      return true, idx + left, 0;
    }
    var len1 := token.value - idx;
    ghost var done, todo := buf[1..idx], buf[idx..idx + left];
    ProgressEscapes(done, todo, len1, code, done + (todo[..len1] + [ESC, code]), todo[len1 + 1..], goal);
    if idx + left + 2 > size {
      return false, idx, left;
    }
    ok := true;
    idx', left' := EscapeToken(buf, idx, left, len1, code);
  }

  /**
   Stuffs the len bytes after the opening mark in place. It succeeds exactly when two marks and the stuffed bytes fit
   in size bytes, and then buf[1..end] is the stuffed body; either way nothing beyond size is touched.
   */
  method StuffInPlace(buf: array<Byte>, len: nat, size: nat) returns (ok: bool, end: nat)
    requires len + 2 <= size <= buf.Length
    modifies buf
    ensures ok <==> |Stuff(old(buf[1..1 + len]))| + 2 <= size
    ensures ok ==> end == 1 + |Stuff(old(buf[1..1 + len]))| && buf[1..end] == Stuff(old(buf[1..1 + len]))
    ensures buf[0] == old(buf[0])
    ensures forall k :: size <= k < buf.Length ==> buf[k] == old(buf[k])
  {
    ghost var goal := Stuff(buf[1..1 + len]);
    var left := len;
    end := 1;
    ProgressStarts(buf[1..end], buf[end..end + left], goal);
    while left > 0
      invariant 1 <= end && 0 <= left && end + left + 1 <= size
      invariant Progress(buf[1..end], buf[end..end + left], goal)
      invariant buf[0] == old(buf[0])
      invariant forall k :: size <= k < buf.Length ==> buf[k] == old(buf[k])
      decreases left
    {
      ok, end, left := StuffNext(buf, end, left, size, goal);
      if !ok {
        return;
      }
    }
    ProgressEnds(buf[1..end], buf[end..end + left], goal);
    ok := true;
  }

  // ---------- unstuffing ----------

  /** The decoded bytes so far, with what unstuffing the rest will give, are the goal. */
  ghost predicate Decoding(done: seq<Byte>, rest: seq<Byte>, goal: Option<seq<Byte>>) {
    goal == PrependAll(done, Unstuff(rest))
  }

  lemma DecodingStarts(body: seq<Byte>, goal: Option<seq<Byte>>)
    requires body != []
    requires goal == Prepend(MARK, Unstuff(body))
    ensures Decoding([], [MARK] + body, goal)
  {
    assert ([MARK] + body)[1..] == body;
    assert goal.Some? ==> [] + goal.value == goal.value;
  }

  lemma DecodingPlain(done: seq<Byte>, rest: seq<Byte>, done': seq<Byte>, rest': seq<Byte>, goal: Option<seq<Byte>>)
    requires Decoding(done, rest, goal) && |rest| >= 2 && rest[0] != ESC
    requires done' == done + [rest[0]] && rest' == rest[1..]
    ensures Decoding(done', rest', goal)
  {
    MovePrepended(done, rest[0], Unstuff(rest'));
  }

  lemma DecodingEscape(done: seq<Byte>, rest: seq<Byte>, x: Byte, done': seq<Byte>, rest': seq<Byte>,
                       goal: Option<seq<Byte>>)
    requires Decoding(done, rest, goal) && |rest| >= 2 && rest[0] == ESC
    requires (rest[1] == ESC_MARK && x == MARK) || (rest[1] == ESC_ESC && x == ESC)
    requires done' == done + [x] && rest' == rest[2..]
    ensures Decoding(done', rest', goal)
  {
    MovePrepended(done, x, Unstuff(rest'));
  }

  lemma MovePrepended(done: seq<Byte>, x: Byte, o: Option<seq<Byte>>)
    ensures PrependAll(done, Prepend(x, o)) == PrependAll(done + [x], o)
  {
    if o.Some? {
      assert done + ([x] + o.value) == done + [x] + o.value;
    }
  }

  lemma DecodingEnds(done: seq<Byte>, rest: seq<Byte>, goal: Option<seq<Byte>>)
    requires Decoding(done, rest, goal) && |rest| < 2
    ensures goal == Some(done + rest)
  {
  }

  /** Takes the escape at buf[at] out: its place is taken by x and what follows up to the end moves down by one. */
  method TakeEscape(buf: array<Byte>, at: nat, x: Byte, end: nat)
    requires at + 1 < end <= buf.Length
    modifies buf
    ensures buf[at] == x
    ensures buf[at + 1..end - 1] == old(buf[at + 2..end])
    ensures buf[end - 1] == 0
    ensures forall k :: 0 <= k < buf.Length && !(at <= k < end) ==> buf[k] == old(buf[k])
  {
    buf[at] := x;
    ShiftLeft(buf, at + 1, 1, end - at - 1);
  }

  /** One escape in the decoding loop: either it is decoded, or the whole body has no decoding. */
  method DecodeEscape(buf: array<Byte>, start: nat, at: nat, end: nat, ghost goal: Option<seq<Byte>>)
    returns (ok: bool)
    requires start < at && at + 1 < end <= buf.Length && buf[at] == ESC
    requires Decoding(buf[start..at], buf[at..end], goal)
    modifies buf
    ensures ok ==> Decoding(buf[start..at + 1], buf[at + 1..end - 1], goal) && buf[end - 1] == 0
    ensures !ok ==> goal == None
    ensures forall k :: 0 <= k < buf.Length && !(start < k < end) ==> buf[k] == old(buf[k])
  {
    ghost var done, rest := buf[start..at], buf[at..end];
    var x;
    if buf[at + 1] == ESC_MARK {
      x := MARK;
    } else if buf[at + 1] == ESC_ESC {
      x := ESC;
    } else {
      return false;
    }
    TakeEscape(buf, at, x, end);
    DecodingEscape(done, rest, x, done + [x], rest[2..], goal);
    assert buf[start..at] == done;
    Join(buf[..], start, at, at + 1);
    assert buf[at + 1..end - 1] == rest[2..];
    return true;
  }

  lemma DecodePlainAt(s: seq<Byte>, start: nat, at: nat, end: nat, goal: Option<seq<Byte>>)
    requires start <= at && at + 1 < end <= |s| && s[at] != ESC
    requires Decoding(s[start..at], s[at..end], goal)
    ensures Decoding(s[start..at + 1], s[at + 1..end], goal)
  {
    var done, rest := s[start..at], s[at..end];
    Append(s, start, at);
    assert s[at + 1..end] == rest[1..];
    DecodingPlain(done, rest, done + [rest[0]], rest[1..], goal);
  }

  lemma DecodeEndsAt(s: seq<Byte>, start: nat, at: nat, end: nat, goal: Option<seq<Byte>>)
    requires start <= at <= end <= |s| && end - at < 2
    requires Decoding(s[start..at], s[at..end], goal)
    ensures goal == Some(s[start..end])
  {
    Join(s, start, at, end);
    DecodingEnds(s[start..at], s[at..end], goal);
  }

  /** One turn of the decoding loop: the byte is taken as it is, or it is an escape and takes the next one with it. */
  method DecodeNext(buf: array<Byte>, start: nat, at: nat, stop: nat, end: nat, ghost goal: Option<seq<Byte>>)
    returns (ok: bool, stop': nat)
    requires start <= at && at + 1 < stop <= end <= buf.Length && buf[start] == MARK
    requires Decoding(buf[start..at], buf[at..stop], goal)
    requires forall k :: stop <= k < end ==> buf[k] == 0
    modifies buf
    ensures ok ==> at + 1 <= stop' <= stop && Decoding(buf[start..at + 1], buf[at + 1..stop'], goal)
    ensures ok ==> forall k :: stop' <= k < end ==> buf[k] == 0
    ensures !ok ==> goal == None
    ensures forall k :: 0 <= k < buf.Length && !(start < k < end) ==> buf[k] == old(buf[k])
  {
    if buf[at] != ESC {
      DecodePlainAt(buf[..], start, at, stop, goal);
      return true, stop;
    }
    ok := DecodeEscape(buf, start, at, stop, goal);
    stop' := stop - 1;
  }

  /** The decoding loop, which looks at every byte from the opening mark on but the last. */
  method DecodeLoop(buf: array<Byte>, start: nat, end: nat, ghost goal: Option<seq<Byte>>)
    returns (ok: bool, size: nat)
    requires start + 1 < end <= buf.Length && buf[start] == MARK
    requires Decoding([], buf[start..end], goal)
    modifies buf
    ensures ok ==> start + size < end && goal == Some(buf[start..start + size + 1])
    ensures ok ==> forall k :: start + size + 1 <= k < end ==> buf[k] == 0
    ensures !ok ==> goal == None
    ensures forall k :: 0 <= k < buf.Length && !(start < k < end) ==> buf[k] == old(buf[k])
  {
    var at, stop := start, end;
    assert buf[start..at] == [];
    while at + 1 < stop
      invariant start <= at <= stop <= end && start < stop
      invariant Decoding(buf[start..at], buf[at..stop], goal)
      invariant forall k :: stop <= k < end ==> buf[k] == 0
      invariant forall k :: 0 <= k < buf.Length && !(start < k < end) ==> buf[k] == old(buf[k])
      decreases stop - at
    {
      ok, stop := DecodeNext(buf, start, at, stop, end, goal);
      if !ok {
        return false, 0;
      }
      at := at + 1;
    }
    DecodeEndsAt(buf[..], start, at, stop, goal);
    return true, stop - start - 1;
  }

  /**
   Unstuffs what is between the marks at buf[start] and buf[end] in place. The result is the decoded size, zero for
   an error; the decoded bytes follow the opening mark and zeros fill the gap. The marks and everything outside them
   stay as they are, even when the escapes are bad.
   */
  method DecodeCopy(buf: array<Byte>, start: nat, end: nat) returns (n: nat)
    requires start < end < buf.Length && buf[start] == MARK
    modifies buf
    ensures n == DecodedSize(old(buf[start + 1..end]))
    ensures n > 0 ==> start + 1 + n <= end && buf[start + 1..start + 1 + n] == Unstuff(old(buf[start + 1..end])).value
    ensures n > 0 ==> forall k :: start + 1 + n <= k < end ==> buf[k] == 0
    ensures forall k :: 0 <= k < buf.Length && !(start < k < end) ==> buf[k] == old(buf[k])
  {
    ghost var body := buf[start + 1..end];
    if end - start - 1 == 0 {
      return 0;
    }
    ghost var goal := Prepend(MARK, Unstuff(body));
    DecodingStarts(body, goal);
    assert buf[start..end] == [MARK] + body;
    var ok, size := DecodeLoop(buf, start, end, goal);
    if !ok {
      return 0;
    }
    n := size;
    SplitAt(buf[start..start + n + 1], 0);
    assert buf[start + 1..start + 1 + n] == buf[start..start + n + 1][1..] == goal.value[1..];
  }
}
