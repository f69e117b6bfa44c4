/**
 Reading a configuration file through a fixed buffer: a partial last line is moved to the front
 of the buffer before more of the file is read.
 */
module ConfigReader {
  const NUL: char := '\0'
  const MAX_CONFIG_VALUE: nat := 2048
  const BUFSIZE: nat := MAX_CONFIG_VALUE + 128
  const CAPACITY: nat := BUFSIZE - 1

  // ---------------------------------------------------------------- plain line splitting

  /** The index of the first newline, or the length. */
  function FirstNewline(s: string): (k: nat)
    ensures k <= |s| && (forall i :: 0 <= i < k ==> s[i] != '\n') && (k < |s| ==> s[k] == '\n')
  {
    if s == [] || s[0] == '\n' then 0 else 1 + FirstNewline(s[1..])
  }

  /** The newline-terminated lines of a file, and what follows the last of them. */
  function Lines(s: string): seq<string>
    decreases |s|
  {
    var k := FirstNewline(s);
    if k == |s| then [] else [s[..k]] + Lines(s[k + 1..])
  }

  function Tail(s: string): string
    decreases |s|
  {
    var k := FirstNewline(s);
    if k == |s| then s else Tail(s[k + 1..])
  }

  function StripReturn(l: string): string {
    if l != [] && l[|l| - 1] == '\r' then l[..|l| - 1] else l
  }

  /** Blank lines and comments are skipped. */
  function Wanted(l: string): seq<string> {
    var t := StripReturn(l);
    if t == [] || t[0] == '#' then [] else [t]
  }

  function AllWanted(ls: seq<string>): seq<string> {
    if ls == [] then [] else Wanted(ls[0]) + AllWanted(ls[1..])
  }

  /** No line is longer than the buffer holds, newline included. */
  predicate Fits(s: string)
    decreases |s|
  {
    var k := FirstNewline(s);
    k < CAPACITY && (k < |s| ==> Fits(s[k + 1..]))
  }

  predicate NulFree(s: string) {
    forall i :: 0 <= i < |s| ==> s[i] != NUL
  }

  /**
   Where the last full buffer starts: the buffer is refilled from the start of the first line that
   does not end in it, until it reaches the end of the file.
   */
  function LastWindow(file: string, w: nat): (last: nat)
    requires w <= |file|
    ensures w <= last <= |file|
    decreases |file| - w
  {
    if w + CAPACITY >= |file| then w
    else
      var rest := |Tail(file[w..w + CAPACITY])|;
      TailBound(file[w..w + CAPACITY]);
      if rest == CAPACITY then w else LastWindow(file, w + CAPACITY - rest)
  }

  lemma {:induction false} TailBound(s: string)
    ensures |Tail(s)| <= |s| && s[|s| - |Tail(s)|..] == Tail(s)
    decreases |s|
  {
    var k := FirstNewline(s);
    if k < |s| { TailBound(s[k + 1..]); }
  }

  /** The unterminated rest of a file is processed exactly if no newline precedes it in the last buffer. */
  predicate RestSeen(file: string) {
    TailBound(file);
    Tail(file) != [] && LastWindow(file, 0) == |file| - |Tail(file)|
  }

  /** The buffer holds the file from `w` up to `pos`, and `done` is where a line starts in it. */
  ghost predicate InWindow(file: string, w: nat, done: nat, pos: nat) {
    && w <= done <= pos <= |file| && pos == (if w + CAPACITY <= |file| then w + CAPACITY else |file|)
    && Tail(file[w..pos]) == Tail(file[done..pos]) && LastWindow(file, w) == LastWindow(file, 0)
  }

  lemma WindowStart(file: string, pos: nat)
    requires pos == if CAPACITY <= |file| then CAPACITY else |file|
    ensures InWindow(file, 0, 0, pos)
  {
  }

  lemma WindowLine(file: string, w: nat, done: nat, pos: nat, k: nat)
    requires InWindow(file, w, done, pos) && k < pos - done && FirstNewline(file[done..pos]) == k
    ensures InWindow(file, w, done + k + 1, pos)
  {
    hide FirstNewline, Tail, LastWindow;
    LineStep(file[done..pos], k);
    assert file[done..pos][k + 1..] == file[done + k + 1..pos];
  }

  /** A full buffer without the end of the current line is refilled from the start of that line. */
  lemma WindowNext(file: string, w: nat, done: nat, pos: nat, next: nat)
    requires InWindow(file, w, done, pos) && w < done && pos < |file| && FirstNewline(file[done..pos]) == pos - done
    requires next == if done + CAPACITY <= |file| then done + CAPACITY else |file|
    ensures InWindow(file, done, done, next)
  {
    var s := file[w..w + CAPACITY];
    assert Tail(file[done..pos]) == file[done..pos];
    assert |Tail(s)| == pos - done;
  }

  lemma WindowRest(file: string, w: nat, done: nat, pos: nat)
    requires InWindow(file, w, done, pos) && pos == |file| && Tail(file) == file[done..]
    ensures RestSeen(file) <==> done < |file| && w == done
  {
    assert LastWindow(file, w) == w;
  }

  /** In a file no larger than the buffer an unterminated last line is processed only if it is the only line. */
  lemma SmallFile(file: string)
    requires |file| <= CAPACITY
    ensures RestSeen(file) <==> file != [] && Lines(file) == []
  {
    TailBound(file);
    var k := FirstNewline(file);
    if k < |file| { TailBound(file[k + 1..]); }
  }

  lemma LineStep(s: string, k: nat)
    requires k == FirstNewline(s) < |s|
    ensures Lines(s) != [] && Tail(s) == Tail(s[k + 1..]) && (Fits(s) ==> Fits(s[k + 1..]))
    ensures AllWanted(Lines(s)) == Wanted(s[..k]) + AllWanted(Lines(s[k + 1..]))
  {
    LinesStep(s, k);
    TailStep(s, k);
    FitsStep(s, k);
    hide FirstNewline, Lines, Tail, Fits, AllWanted, Wanted;
    WantedFirst(s[..k], Lines(s[k + 1..]));
  }

  lemma LinesStep(s: string, k: nat)
    requires k == FirstNewline(s) < |s|
    ensures Lines(s) == [s[..k]] + Lines(s[k + 1..])
  {
    hide FirstNewline;
  }

  lemma TailStep(s: string, k: nat)
    requires k == FirstNewline(s) < |s|
    ensures Tail(s) == Tail(s[k + 1..])
  {
    hide FirstNewline;
  }

  lemma FitsStep(s: string, k: nat)
    requires k == FirstNewline(s) < |s|
    ensures Fits(s) ==> Fits(s[k + 1..])
  {
    hide FirstNewline;
  }

  lemma WantedFirst(l: string, ls: seq<string>)
    ensures AllWanted([l] + ls) == Wanted(l) + AllWanted(ls)
  {
    hide Wanted;
    assert ([l] + ls)[1..] == ls;
  }

  lemma FirstNewlineIs(s: string, k: nat)
    requires k <= |s| && (forall i :: 0 <= i < k ==> s[i] != '\n') && (k < |s| ==> s[k] == '\n')
    ensures FirstNewline(s) == k
  {
    hide FirstNewline;
  }

  /** An unterminated last line is taken as it stands. */
  function Raw(t: string): seq<string> {
    if t == [] || t[0] == '#' then [] else [t]
  }

  lemma PrefixNewline(s: string, m: nat)
    requires m <= |s|
    ensures FirstNewline(s[..m]) < m ==> FirstNewline(s) == FirstNewline(s[..m])
    ensures FirstNewline(s[..m]) == m ==> m <= FirstNewline(s)
  {
    hide FirstNewline;
    var k := FirstNewline(s[..m]);
    if k < m {
      FirstNewlineIs(s, k);
    } else {
      forall i | 0 <= i < m ensures s[i] != '\n' {
        assert s[i] == s[..m][i];
      }
    }
  }

  // ---------------------------------------------------------------- the reader

  const MISSING: int := -1

  class Reader {
    const file: string
    const buf: array<char>
    var pos: nat
    var bufread: nat
    var newline: int
    ghost var done: nat
    ghost var window: nat

    constructor (f: string)
      ensures file == f && fresh(buf) && buf.Length == BUFSIZE && pos == 0 && bufread == 0 && newline == MISSING
      ensures done == 0
    {
      file, pos, bufread, newline, done, window := f, 0, 0, MISSING, 0, 0;
      buf := new char[BUFSIZE](_ => NUL);
    }

    /** From `line` on the buffer holds the file from `done` on, as far as it has been read. */
    ghost predicate Holds(line: int)
      reads this, buf
    {
      && buf.Length == BUFSIZE && 0 <= line <= bufread <= CAPACITY && done <= pos <= |file|
      && buf[line..bufread] == file[done..pos] && buf[bufread] == NUL && NulFree(file)
    }

    /** The buffer holds the file from `window` on, and is full unless the whole file has been read. */
    ghost predicate Filled()
      reads this
    {
      InWindow(file, window, done, pos) && bufread == pos - window
    }

    /** os_read: as much as is wanted, unless the file ends before. */
    method Read(at: nat, want: nat) returns (n: nat)
      requires buf.Length == BUFSIZE && at + want <= CAPACITY && pos <= |file|
      modifies `pos, buf
      ensures n == (if want <= |file| - old(pos) then want else |file| - old(pos)) && pos == old(pos) + n
      ensures buf[at..at + n] == file[old(pos)..pos] && buf[..at] == old(buf[..at])
    {
      n := if want <= |file| - pos then want else |file| - pos;
      var i := 0;
      while i < n
        invariant pos == old(pos) && 0 <= i <= n && buf[at..at + i] == file[pos..pos + i] && buf[..at] == old(buf[..at])
      {
        buf[at + i] := file[pos + i];
        i := i + 1;
      }
      pos := pos + n;
    }

    /** strchr for a newline. */
    method FindNewline(line: nat) returns (k: int)
      requires Holds(line)
      ensures k == MISSING ==> FirstNewline(file[done..pos]) == pos - done
      ensures k != MISSING ==> line <= k < bufread && FirstNewline(file[done..pos]) == k - line
    {
      k := line;
      HeldNulFree(line);
      while buf[k] != NUL
        invariant line <= k <= bufread && forall i :: line <= i < k ==> buf[i] != '\n'
        decreases bufread - k
      {
        if buf[k] == '\n' {
          FirstAt(line, k);
          return;
        }
        k := k + 1;
      }
      FirstAt(line, k);
      k := MISSING;
    }

    lemma HeldNulFree(line: int)
      requires Holds(line)
      ensures forall i :: line <= i < bufread ==> buf[i] != NUL
    {
      forall i | line <= i < bufread ensures buf[i] != NUL {
        assert buf[i] == buf[line..bufread][i - line] == file[done..pos][i - line];
      }
    }

    lemma FirstAt(line: int, k: int)
      requires Holds(line) && line <= k <= bufread && (forall i :: line <= i < k ==> buf[i] != '\n')
      requires k < bufread ==> buf[k] == '\n'
      ensures FirstNewline(file[done..pos]) == k - line
    {
      var s := file[done..pos];
      assert s == buf[line..bufread];
      FirstNewlineIs(s, k - line);
    }

    /** Between lines: nothing read yet, a line just taken, or everything taken. */
    ghost predicate Ready()
      reads this, buf
    {
      && buf.Length == BUFSIZE && NulFree(file) && done <= pos <= |file|
      && (newline == MISSING ==> pos == 0 && done == 0)
      && (newline == BUFSIZE - 1 ==> pos == |file| == done)
      && (newline != MISSING && newline != BUFSIZE - 1 ==>
            0 <= newline < bufread && Holds(newline + 1) && Filled() && window < done)
    }

    /** The line that starts at `line` has been looked for in all that has been read. */
    ghost predicate Found(line: int)
      reads this, buf
    {
      && Holds(line) && Filled()
      && (newline == MISSING ==> window == done && FirstNewline(file[done..pos]) == pos - done)
      && (newline != MISSING ==> line <= newline < bufread && FirstNewline(file[done..pos]) == newline - line)
    }

    /** Brings the next line into the buffer, reading more of the file if its end is not there. */
    method Fetch() returns (more: bool, line: nat)
      requires Ready()
      modifies `pos, `bufread, `newline, `window, buf
      ensures done == old(done) && done <= pos <= |file|
      ensures more ==> Found(line) && (newline == MISSING ==> done < pos)
      ensures !more ==> pos == |file| && FirstNewline(file[done..pos]) == pos - done
      ensures !more && old(newline) == MISSING ==> file == []
      ensures !more && old(newline) != MISSING && old(newline) != BUFSIZE - 1 ==> Filled() && window < done
      ensures old(newline) == BUFSIZE - 1 ==> !more
    {
      hide InWindow, FirstNewline;
      line := 0;
      if newline == MISSING || newline == BUFSIZE - 1 {
        EmptyRest(file);
        more := Fill();
        if !more {
          return;
        }
        newline := FindNewline(0);
      } else {
        more, line := Advance();
      }
    }

    /** Looks for the next line in the buffer, and refills it if the line does not end there. */
    method Advance() returns (more: bool, line: nat)
      requires Ready() && newline != MISSING && newline != BUFSIZE - 1
      modifies `pos, `bufread, `newline, `window, buf
      ensures done <= pos <= |file|
      ensures more ==> Found(line) && (newline == MISSING ==> done < pos)
      ensures !more ==> pos == |file| && FirstNewline(file[done..pos]) == pos - done && Filled() && window < done
    {
      hide InWindow, FirstNewline;
      line := newline + 1;
      newline := FindNewline(line);
      more := true;
      if newline == MISSING {
        more := Refill(line);
        if !more {
          return;
        }
        line := 0;
        newline := FindNewline(0);
      }
    }

    /** Reads into the whole buffer; finds something only the first time. */
    method Fill() returns (more: bool)
      requires buf.Length == BUFSIZE && NulFree(file) && (pos == 0 == done || pos == |file| == done)
      modifies `pos, `bufread, `window, buf
      ensures done <= pos <= |file| && (more <==> old(pos) < |file|) && (!more ==> pos == old(pos))
      ensures more ==> Holds(0) && Filled() && window == done < pos
    {
      hide InWindow;
      var n := Read(0, CAPACITY);
      if n <= 0 {
        return false;
      }
      bufread := n;
      buf[bufread] := NUL;
      assert buf[0..bufread] == file[0..pos];
      window := 0;
      WindowStart(file, pos);
      more := true;
    }

    /** Moves the unfinished line to the front of the buffer and reads into the space this frees. */
    method Refill(line: nat) returns (more: bool)
      requires Holds(line) && Filled() && window < done && FirstNewline(file[done..pos]) == pos - done
      modifies `pos, `bufread, `window, buf
      ensures done <= pos <= |file| && (more <==> old(pos) < |file|)
      ensures !more ==> pos == old(pos) && bufread == old(bufread) && window == old(window)
      ensures more ==> Holds(0) && Filled() && window == done < pos
    {
      hide FirstNewline, Tail, LastWindow, InWindow;
      WindowBounds(file, window, done, pos);
      ghost var rest := file[done..pos];
      var len := bufread - line;
      assert |buf[line..bufread]| == |rest|;
      forall i | 0 <= i < len {
        buf[i] := buf[line + i];
      }
      assert buf[..len] == rest;
      var n := Read(len, line);
      if n <= 0 {
        return false;
      }
      bufread := n + len;
      assert buf[0..bufread] == buf[..len] + buf[len..len + n];
      assert file[done..pos] == rest + file[old(pos)..pos];
      buf[bufread] := NUL;
      assert buf[0..bufread] == file[done..pos];
      WindowNext(file, window, done, old(pos), pos);
      window := done;
      more := true;
    }

    /** The string that starts at `line`: everything up to the next NUL. */
    method Text(line: nat, ghost end: nat) returns (t: string)
      requires line <= end < buf.Length && buf[end] == NUL && forall i :: line <= i < end ==> buf[i] != NUL
      ensures t == buf[line..end]
    {
      t := [];
      var i := line;
      while buf[i] != NUL
        invariant line <= i <= end && t == buf[line..i]
        decreases end - i
      {
        t := t + [buf[i]];
        i := i + 1;
      }
    }

    /** Ends the line with a NUL, drops a carriage return before it, and takes it out of the buffer. */
    method Take(line: nat) returns (t: string)
      requires Found(line) && newline != MISSING
      modifies `done, buf
      ensures Ready() && pos == old(pos) && newline == old(newline)
      ensures old(done) + (newline - line) < done == old(done) + (newline - line) + 1 <= |file|
      ensures t == StripReturn(file[old(done)..done - 1])
    {
      hide FirstNewline, InWindow;
      HeldNulFree(line);
      HeldParts(line);
      WindowBounds(file, window, done, pos);
      WindowLine(file, window, done, pos, newline - line);
      t := CutLine(line, newline);
      done := done + (newline - line) + 1;
      assert buf[newline + 1..bufread] == old(buf[newline + 1..bufread]);
    }

    method CutLine(line: nat, end: nat) returns (t: string)
      requires line <= end < buf.Length && forall i :: line <= i < end ==> buf[i] != NUL
      modifies buf
      ensures t == StripReturn(old(buf[line..end])) && (forall i :: end < i < buf.Length ==> buf[i] == old(buf[i]))
    {
      ghost var text := buf[line..end];
      buf[end] := NUL;
      if end > line && buf[end - 1] == '\r' {
        buf[end - 1] := NUL;
        t := Text(line, end - 1);
        assert t == text[..|text| - 1];
      } else {
        t := Text(line, end);
        assert t == text;
      }
    }

    /** The line and what follows it, in the buffer and in the file. */
    lemma HeldParts(line: int)
      requires Holds(line) && line <= newline < bufread
      ensures done + (newline - line) < pos
      ensures buf[line..newline] == file[done..done + (newline - line)]
      ensures buf[newline + 1..bufread] == file[done + (newline - line) + 1..pos]
    {
      var b, f, k := buf[line..bufread], file[done..pos], newline - line;
      assert |b| == |f|;
      assert buf[line..newline] == b[..k] && file[done..done + k] == f[..k];
      assert buf[newline + 1..bufread] == b[k + 1..] && file[done + k + 1..pos] == f[k + 1..];
    }

    /** Takes the rest of the file as one line when no newline ends it. */
    method TakeRest(line: nat) returns (t: string)
      requires Found(line) && newline == MISSING && pos == |file| && pos - done < CAPACITY
      modifies `done, `newline, buf
      ensures Ready() && pos == |file| == done && newline == BUFSIZE - 1 && t == file[old(done)..]
    {
      hide FirstNewline, InWindow;
      HeldNulFree(line);
      ghost var text := buf[line..bufread];
      assert text == file[done..pos] == file[done..];
      newline := BUFSIZE - 1;
      buf[newline] := NUL;
      if newline > line && buf[newline - 1] == '\r' {
        buf[newline - 1] := NUL;
      }
      assert buf[line..bufread] == text;
      t := Text(line, bufread);
      assert t == text;
      done := |file|;
    }

    /**
     Reads the whole file.  The lines processed are the file's newline-terminated lines, without
     blank ones and comments and without carriage returns, in order; and the unterminated rest
     exactly if no newline precedes it in the last buffer.
     */
    method ReadAll() returns (out: seq<string>)
      requires buf.Length == BUFSIZE && newline == MISSING && pos == 0 && done == 0 && NulFree(file) && Fits(file)
      modifies this, buf
      ensures out == AllWanted(Lines(file)) + if RestSeen(file) then Raw(Tail(file)) else []
    {
      hide FirstNewline, Lines, Tail, AllWanted, Fits, SoFar, Raw, RestSeen;
      out := [];
      ghost var rest := false;
      SoFarStart(file);
      var more := true;
      while more
        invariant more && !rest ==>
                  Ready() && SoFar(file, done, out) && newline != BUFSIZE - 1 && (done == 0 ==> newline == MISSING)
        invariant rest ==> more && Ready() && newline == BUFSIZE - 1 && RestSeen(file)
        invariant rest ==> out == AllWanted(Lines(file)) + Raw(Tail(file))
        invariant !more ==> out == AllWanted(Lines(file)) && !RestSeen(file)
        decreases |file| - done, more
      {
        if newline == BUFSIZE - 1 {
          var line;
          more, line := Fetch();
          return;
        }
        more, out, rest := NextLine(out);
      }
    }

    /** Fetches and processes one line. */
    method NextLine(before: seq<string>) returns (more: bool, out: seq<string>, ghost rest: bool)
      requires Ready() && SoFar(file, done, before) && newline != BUFSIZE - 1 && (done == 0 ==> newline == MISSING)
      modifies this, buf
      ensures !more ==> !rest && out == before && done == old(done) && out == AllWanted(Lines(file)) && !RestSeen(file)
      ensures more ==> Ready() && old(done) < done <= |file|
      ensures more && !rest ==> SoFar(file, done, out) && newline != BUFSIZE - 1 && newline != MISSING
      ensures rest ==>
                more && newline == BUFSIZE - 1 && RestSeen(file) && out == AllWanted(Lines(file)) + Raw(Tail(file))
    {
      hide FirstNewline, Lines, Tail, AllWanted, Fits, SoFar, InWindow, RestSeen;
      ghost var d := done;
      out, rest := before, false;
      var line;
      more, line := Fetch();
      if !more {
        FileEnds(file, window, d, out, pos);
        return;
      }
      var t;
      if newline == MISSING {
        RestFound(file, d, out, pos);
        t := TakeRest(line);
        rest := true;
      } else {
        SoFarLine(file, d, out, pos, newline - line);
        t := Take(line);
      }
      assert before + [] == before;
      if t != [] && t[0] != '#' {
        out := out + [t];
      }
    }
  }

  /** Nothing is left to read, and no newline in what is left in the buffer. */
  lemma FileEnds(file: string, w: nat, done: nat, out: seq<string>, pos: nat)
    requires SoFar(file, done, out) && done <= pos == |file| && FirstNewline(file[done..pos]) == pos - done
    requires file == [] || (InWindow(file, w, done, pos) && w < done)
    ensures out == AllWanted(Lines(file)) && !RestSeen(file)
  {
    hide FirstNewline, Lines, Tail, AllWanted, Fits, SoFar, InWindow, RestSeen;
    SoFarEnd(file, done, out, pos);
    if file == [] { NoRest(file); } else { WindowRest(file, w, done, pos); }
  }

  /** A buffer filled from the current line on has no newline: then it holds the rest of the file. */
  lemma RestFound(file: string, done: nat, out: seq<string>, pos: nat)
    requires SoFar(file, done, out) && done < pos && InWindow(file, done, done, pos)
    requires FirstNewline(file[done..pos]) == pos - done
    ensures pos == |file| && pos - done < CAPACITY && out == AllWanted(Lines(file)) && Tail(file) == file[done..]
    ensures RestSeen(file)
  {
    hide FirstNewline, Lines, Tail, AllWanted, Fits, SoFar, InWindow, RestSeen;
    WindowBounds(file, done, done, pos);
    SoFarRest(file, done, out, pos);
    WindowRest(file, done, done, pos);
  }

  lemma WindowBounds(file: string, w: nat, done: nat, pos: nat)
    requires InWindow(file, w, done, pos)
    ensures w <= done <= pos <= |file| && pos == if w + CAPACITY <= |file| then w + CAPACITY else |file|
  {
  }

  lemma EmptyRest(file: string)
    ensures FirstNewline(file[|file|..]) == 0
  {
  }

  lemma NoRest(file: string)
    requires file == []
    ensures !RestSeen(file)
  {
  }

  // ---------------------------------------------------------------- progress through the file

  /** `out` is what the lines before position `done`, where a line starts, amount to. */
  ghost predicate SoFar(file: string, done: nat, out: seq<string>) {
    && done <= |file| && Fits(file[done..]) && Tail(file[done..]) == Tail(file)
    && out + AllWanted(Lines(file[done..])) == AllWanted(Lines(file))
    && (done == 0 ==> out == []) && (0 < done ==> Lines(file) != [])
  }

  lemma SoFarStart(file: string)
    requires Fits(file)
    ensures SoFar(file, 0, [])
  {
    assert file[0..] == file;
  }

  lemma SoFarLine(file: string, done: nat, out: seq<string>, pos: nat, k: nat)
    requires SoFar(file, done, out) && done + k < pos <= |file| && FirstNewline(file[done..pos]) == k
    ensures SoFar(file, done + k + 1, out + Wanted(file[done..done + k]))
  {
    hide FirstNewline, Lines, Tail, AllWanted, Fits, Wanted;
    var s := file[done..];
    assert file[done..pos] == s[..pos - done];
    PrefixNewline(s, pos - done);
    LineStep(s, k);
    assert s[k + 1..] == file[done + k + 1..] && s[..k] == file[done..done + k];
    assert file[0..] == file;
  }

  /** No newline in the rest of the file. */
  lemma SoFarEnd(file: string, done: nat, out: seq<string>, pos: nat)
    requires SoFar(file, done, out) && done <= pos == |file| && FirstNewline(file[done..pos]) == pos - done
    ensures out == AllWanted(Lines(file)) && Tail(file) == file[done..] && pos - done < CAPACITY
    ensures done == 0 <==> Lines(file) == []
  {
    assert file[done..pos] == file[done..] && file[0..] == file;
    assert Lines(file[done..]) == [];
  }

  /** No newline in a full buffer: then the file ends here, because every line fits. */
  lemma SoFarRest(file: string, done: nat, out: seq<string>, pos: nat)
    requires SoFar(file, done, out) && done < pos <= |file| && FirstNewline(file[done..pos]) == pos - done
    requires pos - done == CAPACITY || pos == |file|
    ensures pos == |file| && out == AllWanted(Lines(file)) && Tail(file) == file[done..] && pos - done < CAPACITY
    ensures done == 0 ==> Lines(file) == []
  {
    var s := file[done..];
    assert file[done..pos] == s[..pos - done];
    PrefixNewline(s, pos - done);
    SoFarEnd(file, done, out, pos);
  }

  /** Lines with their newlines, put together again. */
  function Joined(ls: seq<string>): string {
    if ls == [] then [] else ls[0] + ['\n'] + Joined(ls[1..])
  }

  /** Splitting loses nothing: the lines and the tail make up the file, and no line contains a newline. */
  lemma {:induction false} LinesRejoin(s: string)
    ensures Joined(Lines(s)) + Tail(s) == s
    ensures forall l :: l in Lines(s) ==> '\n' !in l
    decreases |s|
  {
    hide Lines, Tail, FirstNewline, Joined;
    var k := FirstNewline(s);
    SplitStep(s);
    if k < |s| {
      var l, rest := s[..k], s[k + 1..];
      LinesRejoin(rest);
      JoinedStep(l, Lines(rest));
      Regroup(l, Joined(Lines(rest)), Tail(rest));
      assert s == l + ['\n'] + rest;
      assert '\n' !in l;
    }
  }

  lemma SplitStep(s: string)
    ensures var k := FirstNewline(s);
            if k == |s| then Lines(s) == [] && Tail(s) == s && Joined(Lines(s)) == []
            else Lines(s) == [s[..k]] + Lines(s[k + 1..]) && Tail(s) == Tail(s[k + 1..])
  {
    hide FirstNewline;
    var k := FirstNewline(s);
    if k == |s| {
      assert Lines(s) == [];
    } else {
      assert Lines(s) == [s[..k]] + Lines(s[k + 1..]);
    }
  }

  lemma JoinedStep(l: string, ls: seq<string>)
    ensures Joined([l] + ls) == l + ['\n'] + Joined(ls)
  {
    assert ([l] + ls)[1..] == ls;
  }

  lemma Regroup(l: string, x: string, y: string)
    ensures l + ['\n'] + x + y == l + ['\n'] + (x + y)
  {
  }

  /**
   Reads a configuration file: exactly the wanted lines are processed, and of a file that does not
   end in a newline the rest exactly if no newline precedes it in the last buffer.
   */
  method ReadConfigFile(file: string) returns (out: seq<string>)
    requires NulFree(file) && Fits(file)
    ensures out == AllWanted(Lines(file)) + if RestSeen(file) then Raw(Tail(file)) else []
  {
    var r := new Reader(file);
    out := r.ReadAll();
  }

  /** A file of two lines whose last lacks its newline: that line is not processed. */
  lemma LastLineLost()
    ensures var file := "a=1\nb=2";
            NulFree(file) && Fits(file) && Tail(file) == "b=2" && Raw(Tail(file)) == ["b=2"] && !RestSeen(file)
  {
    var file := "a=1\nb=2";
    FirstNewlineIs(file, 3);
    assert file[4..] == "b=2";
    FirstNewlineIs("b=2", 3);
    SmallFile(file);
  }
}
