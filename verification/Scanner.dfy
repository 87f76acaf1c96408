/** The generated scanner: table-driven matching in a buffer that is refilled from a descriptor. */
module Scanner {
  import opened Bytes
  import opened Rules
  import opened Rio
  import opened Tables

  const YY_READ_BUF_SIZE: nat := 8192
  const YY_END_OF_BUFFER_CHAR: byte := 0

  datatype BufferStatus = New | Normal | EofPending

  /** How the end-of-buffer action goes on: back to matching, on to the action found, or end of file. */
  datatype Resume = Match | FindAction | EndOfFile

  datatype Refill = ContinueScan | LastMatch | FileEnded

  /** The loop along yy_def and the table entry at its end. */
  method Transition(state: nat, ec: nat) returns (next: nat)
    requires 1 <= state <= JAM && state != 2 && ec <= 7
    ensures next == Delta(state, ec)
  {
    var q, c := state, ec;
    TableIsDelta(state, ec);
    DefaultChainDescends(q, c);
    while !Owns(q, c)
      invariant IsState(q) && c <= 7 && TableNext(q, c) == TableNext(state, ec)
      decreases Rank(q)
    {
      DefaultChainDescends(q, c);
      var d := YY_DEF[q];
      if d >= 14 {
        c := YY_META[c];
      }
      q := d;
    }
    InTables(q, c);
    next := YY_NXT[YY_BASE[q] + c];
  }

  class Scanner {
    const source: Source
    var chBuf: array<byte>
    var bufSize: nat
    var status: BufferStatus
    var nChars: nat
    var cBufP: nat
    var holdChar: byte
    var textPtr: nat
    var lastState: nat
    var lastCpos: nat

    /** Both end-of-buffer characters lie in the allocation, right behind the text. */
    ghost predicate BufferOk()
      reads `chBuf, `bufSize, `status, `nChars, chBuf, source
    {
      && source.reliable && bufSize > 0 && chBuf.Length == bufSize + 2 && nChars <= bufSize
      && chBuf[nChars] == YY_END_OF_BUFFER_CHAR && chBuf[nChars + 1] == YY_END_OF_BUFFER_CHAR
      && (status == EofPending ==> source.pending == [])
    }

    /** The input from buffer position bp on, when no character is held back. */
    ghost function View(bp: nat): seq<byte>
      reads `chBuf, `bufSize, `status, `nChars, chBuf, source
      requires BufferOk() && bp <= nChars
    {
      chBuf[bp..nChars] + source.pending
    }

    /** Between two tokens: the character at cBufP is held back, and a NUL stands in its place. */
    ghost predicate Valid()
      reads this, chBuf, source
    {
      && BufferOk() && textPtr <= cBufP <= nChars && chBuf[cBufP] == NUL
      && (cBufP == nChars ==> holdChar == YY_END_OF_BUFFER_CHAR)
    }

    /** The input not yet turned into tokens. */
    ghost function Rest(): seq<byte>
      reads this, chBuf, source
      requires Valid()
    {
      (if cBufP < nChars then [holdChar] + chBuf[cBufP + 1..nChars] else []) + source.pending
    }

    /** yy_last_accepting_state and _cpos are those of the longest accepting proper prefix of s[..k]. */
    ghost predicate Remembers(s: seq<byte>, bp: nat, k: nat)
      reads `lastState, `lastCpos
      requires k <= |s|
    {
      IsLast(s, bp, k, lastState, lastCpos)
    }

    constructor (source: Source, size: nat)
      requires source.reliable && size > 0
      ensures Valid() && this.source == source && fresh(chBuf) && Rest() == source.pending
    {
      this.source, bufSize, status := source, size, New;
      nChars, cBufP, holdChar, textPtr, lastState, lastCpos := 0, 0, 0, 0, 0, 0;
      var b := new byte[size + 2];
      b[0], b[1] := YY_END_OF_BUFFER_CHAR, YY_END_OF_BUFFER_CHAR;
      chBuf := b;
    }

    /** The bookkeeping before a transition from state q. */
    method Remember(q: nat, cp: nat)
      requires 1 <= q <= JAM
      modifies this`lastState, this`lastCpos
      ensures Accept(q) > 0 ==> lastState == q && lastCpos == cp
      ensures Accept(q) == 0 ==> lastState == old(lastState) && lastCpos == old(lastCpos)
    {
      TableAcceptAndBase(q);
      if YY_ACCEPT[q] != 0 {
        lastState := q;
        lastCpos := cp;
      }
    }

    lemma ViewCovers(bp: nat)
      requires BufferOk() && bp <= nChars
      ensures |View(bp)| == nChars - bp + |source.pending|
    {
    }

    /** What one transition on the buffer's character at cp does to the state after s[..cp - bp]. */
    lemma TextStep(bp: nat, cp: nat, s: seq<byte>)
      requires BufferOk() && bp <= cp <= nChars && View(bp) == s
      ensures cp - bp <= |s|
      ensures chBuf[cp] == NUL ==> Delta(Run(s, cp - bp), Ec(chBuf[cp])) == 3
      ensures chBuf[cp] != NUL ==> cp < nChars && cp - bp < |s|
      ensures chBuf[cp] != NUL ==> Delta(Run(s, cp - bp), Ec(chBuf[cp])) == Run(s, cp - bp + 1)
    {
      assert chBuf[cp] != NUL ==> s[cp - bp] == chBuf[cp];
    }

    /** yy_match: runs the tables from `from` until they stop, or over a zero byte into the end-of-buffer state. */
    method MatchLoop(bp: nat, from: nat, q: nat, ghost s: seq<byte>) returns (cp: nat, state: nat, ghost overNul: bool)
      requires BufferOk() && bp <= from <= nChars && View(bp) == s
      requires q == Run(s, from - bp) && Remembers(s, bp, from - bp)
      modifies this`lastState, this`lastCpos
      ensures from < cp
      ensures !overNul ==> cp <= nChars && state == Run(s, cp - bp) && Stops(state) && Remembers(s, bp, cp - bp)
      ensures overNul ==> from + 2 <= cp <= nChars + 2 && chBuf[cp - 2] == NUL
      ensures overNul ==> state == JAM && lastState == 3 && lastCpos == cp - 1
    {
      hide View, Run, Ec, IsLast;
      ViewCovers(bp);
      cp, state := from, q;
      overNul := false;
      while true
        invariant from <= cp <= nChars + 1 && View(bp) == s
        invariant !overNul ==> cp <= nChars && state == Run(s, cp - bp) && Remembers(s, bp, cp - bp)
        invariant overNul ==> from < cp && chBuf[cp - 1] == NUL && state == 3
        decreases nChars + 2 - cp
      {
        var c := Ec(chBuf[cp]);
        EcRange(chBuf[cp]);
        ghost var oldState, oldCpos := lastState, lastCpos;
        Remember(state, cp);
        if !overNul {
          TextStep(bp, cp, s);
          if cp - bp < |s| {
            LastMoves(s, bp, cp - bp, oldState, oldCpos, lastState, lastCpos);
          }
          overNul := chBuf[cp] == NUL;
        }
        state := Transition(state, c);
        cp := cp + 1;
        TableAcceptAndBase(state);
        if YY_BASE[state] == 14 {
          break;
        }
      }
    }

    lemma TextClassStep(bp: nat, cp: nat, s: seq<byte>)
      requires BufferOk() && bp <= cp < nChars && View(bp) == s
      ensures cp - bp < |s|
      ensures Delta(Run(s, cp - bp), TextClass(chBuf[cp])) == Run(s, cp - bp + 1)
    {
      assert s[cp - bp] == chBuf[cp];
    }

    /** One character of a scan that knows where the text ends. */
    method ScanText(q: nat, cp: nat, ghost bp: nat, ghost s: seq<byte>) returns (next: nat)
      requires BufferOk() && bp <= cp < nChars && View(bp) == s && cp - bp < |s|
      requires q == Run(s, cp - bp) && Remembers(s, bp, cp - bp)
      modifies this`lastState, this`lastCpos
      ensures next == Run(s, cp - bp + 1) && Remembers(s, bp, cp - bp + 1)
    {
      hide View, Run, Ec, IsLast;
      var c := if chBuf[cp] != NUL then Ec(chBuf[cp]) else 1;
      EcRange(chBuf[cp]);
      ghost var oldState, oldCpos := lastState, lastCpos;
      Remember(q, cp);
      TextClassStep(bp, cp, s);
      LastMoves(s, bp, cp - bp, oldState, oldCpos, lastState, lastCpos);
      next := Transition(q, c);
    }

    lemma NothingRemembered(s: seq<byte>, bp: nat)
      ensures Run(s, 0) == START && Remembers(s, bp, 0)
    {
    }

    /** yy_get_previous_state: scans the text again up to cBufP. */
    method GetPreviousState(ghost s: seq<byte>) returns (q: nat)
      requires BufferOk() && textPtr <= cBufP <= nChars && View(textPtr) == s
      modifies this`lastState, this`lastCpos
      ensures cBufP - textPtr <= |s| && q == Run(s, cBufP - textPtr)
      ensures Remembers(s, textPtr, cBufP - textPtr)
    {
      hide *;
      ViewCovers(textPtr);
      NothingRemembered(s, textPtr);
      q := START;
      var cp := textPtr;
      while cp < cBufP
        invariant textPtr <= cp <= cBufP && BufferOk() && View(textPtr) == s
        invariant q == Run(s, cp - textPtr) && Remembers(s, textPtr, cp - textPtr)
      {
        q := ScanText(q, cp, textPtr, s);
        cp := cp + 1;
      }
    }

    /** yy_try_NUL_trans: the transition on a NUL of the text, 0 when it jams. */
    method TryNulTrans(q: nat, ghost s: seq<byte>) returns (next: nat)
      requires textPtr <= cBufP && cBufP - textPtr < |s|
      requires q == Run(s, cBufP - textPtr) && Remembers(s, textPtr, cBufP - textPtr)
      modifies this`lastState, this`lastCpos
      ensures Remembers(s, textPtr, cBufP - textPtr + 1)
      ensures next == if Delta(q, 1) == JAM then 0 else Delta(q, 1)
    {
      hide Run, IsLast;
      ghost var oldState, oldCpos := lastState, lastCpos;
      Remember(q, cBufP);
      LastMoves(s, textPtr, cBufP - textPtr, oldState, oldCpos, lastState, lastCpos);
      next := Transition(q, 1);
      if next == JAM {
        next := 0;
      }
    }

    /** First part of yy_get_next_buffer: the partial token goes to the start of the buffer. */
    method MoveText(count: nat)
      requires BufferOk() && textPtr + count <= nChars
      modifies chBuf
      ensures chBuf[..count] == old(chBuf[textPtr..textPtr + count])
    {
      var i := 0;
      while i < count
        invariant 0 <= i <= count
        invariant forall j | 0 <= j < i :: chBuf[j] == old(chBuf[textPtr + j])
        invariant forall j | i <= j < chBuf.Length :: chBuf[j] == old(chBuf[j])
      {
        chBuf[i] := chBuf[textPtr + i];
        i := i + 1;
      }
    }

    /** Doubling the buffer, with room for both end-of-buffer characters. */
    method Grow()
      requires bufSize > 0 && chBuf.Length == bufSize + 2
      modifies this`chBuf, this`bufSize
      ensures bufSize == 2 * old(bufSize) && fresh(chBuf) && chBuf.Length == bufSize + 2
      ensures chBuf[..old(bufSize)] == old(chBuf[..bufSize])
    {
      var b := new byte[2 * bufSize + 2];
      forall i | 0 <= i < chBuf.Length {
        b[i] := chBuf[i];
      }
      assert b[..bufSize] == chBuf[..bufSize];
      chBuf, bufSize := b, 2 * bufSize;
    }

    /** YY_INPUT: reads again while interrupted. */
    method Input(at: nat, max: nat) returns (count: nat)
      requires source.reliable && 0 < max && at + max <= chBuf.Length
      modifies chBuf, source
      ensures count <= max && count <= |old(source.pending)| && (count == 0 <==> old(source.pending) == [])
      ensures source.pending == old(source.pending)[count..]
      ensures chBuf[at..at + count] == old(source.pending)[..count] && chBuf[..at] == old(chBuf[..at])
    {
      var n, errno := source.Read(chBuf, at, max);
      while n < 0
        invariant n == -1 ==> source.pending == old(source.pending) && errno == Interrupted
        invariant n >= -1
        invariant n >= 0 ==> n <= max && n <= |old(source.pending)| && (n == 0 <==> old(source.pending) == [])
        invariant n >= 0 ==> source.pending == old(source.pending)[n..]
        invariant n >= 0 ==> chBuf[at..at + n] == old(source.pending)[..n]
        invariant forall i | 0 <= i < at :: chBuf[i] == old(chBuf[i])
        decreases source.interrupts, -n
      {
        n, errno := source.Read(chBuf, at, max);
      }
      count := n;
    }

    /** Both end-of-buffer characters behind the text. */
    method Seal()
      requires nChars + 1 < chBuf.Length
      modifies chBuf
      ensures chBuf[nChars] == YY_END_OF_BUFFER_CHAR && chBuf[nChars + 1] == YY_END_OF_BUFFER_CHAR
      ensures chBuf[..nChars] == old(chBuf[..nChars])
    {
      chBuf[nChars] := YY_END_OF_BUFFER_CHAR;
      chBuf[nChars + 1] := YY_END_OF_BUFFER_CHAR;
    }

    /** yyrestart: an empty buffer, to be filled by the next call. */
    method Restart()
      requires chBuf.Length >= 2
      modifies this, chBuf
      ensures chBuf == old(chBuf) && bufSize == old(bufSize)
      ensures status == New && nChars == cBufP == textPtr == 0 && holdChar == YY_END_OF_BUFFER_CHAR
    {
      chBuf[0], chBuf[1] := YY_END_OF_BUFFER_CHAR, YY_END_OF_BUFFER_CHAR;
      status, nChars, cBufP, textPtr := New, 0, 0, 0;
      holdChar := chBuf[cBufP];
    }

    /** Grows the buffer until something can be read behind the first `count` characters. */
    method MakeRoom(count: nat) returns (room: nat)
      requires bufSize > 0 && chBuf.Length == bufSize + 2 && count <= bufSize
      modifies this`chBuf, this`bufSize
      ensures chBuf.Length == bufSize + 2 && room == bufSize - count - 1 > 0
      ensures chBuf[..count] == old(chBuf[..count]) && (chBuf == old(chBuf) || fresh(chBuf))
    {
      ghost var text := chBuf[..count];
      var left: int := bufSize - count - 1;
      while left <= 0
        invariant bufSize > 0 && chBuf.Length == bufSize + 2 && count <= bufSize && left == bufSize - count - 1
        invariant chBuf[..count] == text && (chBuf == old(chBuf) || fresh(chBuf))
        decreases count + 1 - bufSize
      {
        ghost var kept := chBuf[..bufSize];
        Grow();
        assert chBuf[..count] == kept[..count];
        left := bufSize - count - 1;
      }
      room := left;
    }

    /** The reading part of yy_get_next_buffer: nChars becomes the number of characters read. */
    method Fill(count: nat)
      requires source.reliable && bufSize > 0 && chBuf.Length == bufSize + 2 && count <= bufSize
      requires status == EofPending ==> source.pending == []
      modifies this`chBuf, this`bufSize, this`nChars, chBuf, source
      ensures bufSize > 0 && chBuf.Length == bufSize + 2 && nChars + count <= bufSize
      ensures chBuf == old(chBuf) || fresh(chBuf)
      ensures chBuf[..count + nChars] + source.pending == old(chBuf[..count]) + old(source.pending)
      ensures |source.pending| == |old(source.pending)| - nChars
      ensures nChars == 0 ==> source.pending == []
    {
      ghost var text, pending := chBuf[..count], source.pending;
      if status == EofPending {
        nChars := 0;
      } else {
        var room := MakeRoom(count);
        if room > YY_READ_BUF_SIZE {
          room := YY_READ_BUF_SIZE;
        }
        nChars := Input(count, room);
        assert chBuf[..count + nChars] == text + chBuf[count..count + nChars];
        assert pending == pending[..nChars] + pending[nChars..];
      }
    }

    /** yy_get_next_buffer, called with cBufP just past the first end-of-buffer character: the partial token and
        what follows it are the same input as before, wherever the descriptor splits it. */
    method GetNextBuffer(ghost s: seq<byte>) returns (refill: Refill)
      requires BufferOk() && textPtr <= nChars && cBufP == nChars + 1 && View(textPtr) == s
      modifies this, chBuf, source
      ensures BufferOk() && textPtr == 0 && View(0) == s
      ensures chBuf == old(chBuf) || fresh(chBuf)
      ensures Refilled(refill, old(nChars - textPtr), old(|source.pending|), s)
    {
      var count := cBufP - textPtr - 1;
      MoveText(count);
      Fill(count);
      ghost var text := chBuf[..count + nChars];
      if nChars == 0 {
        if count == 0 {
          refill := FileEnded;
          Restart();
        } else {
          refill := LastMatch;
          status := EofPending;
        }
      } else {
        refill := ContinueScan;
      }
      assert nChars > 0 || count > 0 ==> chBuf[..count + nChars] == text;
      // The buffer never has to be extended here: Fill left room for the text.
      nChars := nChars + count;
      Seal();
      textPtr := 0;
      assert chBuf[0..nChars] == chBuf[..nChars] == text;
    }

    /** What a refill of a buffer that held `count` characters of s, with `left` bytes to come, leads to. */
    ghost predicate Refilled(refill: Refill, count: nat, left: nat, s: seq<byte>)
      reads this, source
    {
      match refill
      case ContinueScan => count < nChars && |source.pending| < left
      case LastMatch => 0 < count == nChars && |source.pending| == left == 0
      case FileEnded => s == [] && nChars == cBufP == 0 && holdChar == YY_END_OF_BUFFER_CHAR && source.pending == []
    }

    /** YY_DO_BEFORE_ACTION: the token is buf[bp..cp), ended by a NUL. */
    method BeforeAction(bp: nat, cp: nat)
      requires cp < chBuf.Length
      modifies this`textPtr, this`holdChar, this`cBufP, chBuf
      ensures textPtr == bp && cBufP == cp && holdChar == old(chBuf[cp]) && chBuf[cp] == NUL
      ensures forall i | 0 <= i < chBuf.Length && i != cp :: chBuf[i] == old(chBuf[i])
    {
      textPtr := bp;
      holdChar := chBuf[cp];
      chBuf[cp] := NUL;
      cBufP := cp;
    }

    /** The token buf[bp..cp) is handed to its action. */
    method TakeToken(bp: nat, cp: nat, ghost s: seq<byte>)
      requires BufferOk() && bp <= cp <= nChars && View(bp) == s
      modifies this`textPtr, this`holdChar, this`cBufP, chBuf
      ensures Valid() && cp - bp <= |s| && chBuf[textPtr..cBufP] == s[..cp - bp] && Rest() == s[cp - bp..]
    {
      ghost var text, after := chBuf[bp..cp], chBuf[cp..nChars];
      assert s == text + (after + source.pending);
      BeforeAction(bp, cp);
      assert chBuf[textPtr..cBufP] == text;
      assert cp < nChars ==> chBuf[cp + 1..nChars] == after[1..];
    }

    /** The end-of-buffer action begins by undoing YY_DO_BEFORE_ACTION. */
    method EnterEndOfBuffer(bp: nat, cp: nat, ghost s: seq<byte>)
      requires BufferOk() && bp < cp <= nChars + 1 && View(bp) == s
      modifies this`textPtr, this`holdChar, this`cBufP, chBuf
      ensures BufferOk() && textPtr == bp && cBufP == cp && View(bp) == s && chBuf[..] == old(chBuf[..])
    {
      BeforeAction(bp, cp);
      chBuf[cp] := holdChar;
    }

    /** Where the scan of s, whose text starts at bp, stands when it goes on at cp: still matching, or at its end. */
    ghost predicate At(s: seq<byte>, resume: Resume, bp: nat, cp: nat, state: nat)
      reads this, chBuf, source
    {
      && BufferOk() && bp <= cp <= nChars && View(bp) == s && cp - bp <= |s|
      && state == Run(s, cp - bp)
      && (resume == Match || AcceptAt(s, cp - bp) == 0 ==> Remembers(s, bp, cp - bp))
      && (resume == FindAction ==> bp < cp && CanStop(s, cp - bp))
    }

    /** A NUL of the text: cBufP stands just past it. Takes its transition, or stops in front of it. */
    method RealNul(ghost s: seq<byte>) returns (resume: Resume, cp: nat, state: nat)
      requires BufferOk() && textPtr < cBufP <= nChars && View(textPtr) == s && chBuf[cBufP - 1] == NUL
      modifies this
      ensures chBuf == old(chBuf) && textPtr == old(textPtr)
      ensures At(s, resume, textPtr, cp, state)
      ensures (resume == Match && cp == old(cBufP)) || (resume == FindAction && cp == old(cBufP) - 1)
    {
      hide View, Run, IsLast;
      ViewCovers(textPtr);
      cBufP := cBufP - 1;
      ghost var k := cBufP - textPtr;
      state := GetPreviousState(s);
      TextClassStep(textPtr, cBufP, s);
      var next := TryNulTrans(state, s);
      if next != 0 {
        cBufP := cBufP + 1;
        return Match, cBufP, next;
      }
      FirstMoves(s);
      StopsBefore(s, k, textPtr, lastState, lastCpos);
      return FindAction, cBufP, state;
    }

    /** The scan goes on at cBufP, in the state that an uninterrupted scan would have reached there. */
    method Rescan(resume: Resume, ghost s: seq<byte>) returns (cp: nat, state: nat)
      requires BufferOk() && textPtr <= cBufP <= nChars && View(textPtr) == s
      requires resume == FindAction ==> 0 < cBufP - textPtr == |s|
      modifies this`lastState, this`lastCpos
      ensures cp == cBufP && At(s, resume, textPtr, cp, state)
    {
      hide View, Run, Remembers, BufferOk;
      state := GetPreviousState(s);
      cp := cBufP;
    }

    /** The end of the buffered text: refill it, and go on with the same token. */
    method NeedInput(ghost s: seq<byte>) returns (resume: Resume, cp: nat, state: nat)
      requires BufferOk() && textPtr <= nChars && cBufP == nChars + 1 && View(textPtr) == s
      modifies this, chBuf, source
      ensures chBuf == old(chBuf) || fresh(chBuf)
      ensures resume != EndOfFile ==> At(s, resume, textPtr, cp, state)
      ensures resume == Match ==> |source.pending| < old(|source.pending|)
      ensures resume == FindAction ==> |source.pending| == old(|source.pending|) && cp - textPtr == |s|
      ensures resume == EndOfFile ==> s == [] && Valid() && Rest() == []
    {
      var amount := cBufP - textPtr - 1;
      var refill := GetNextBuffer(s);
      if refill == FileEnded {
        cBufP := textPtr;
        return EndOfFile, 0, START;
      }
      ViewCovers(textPtr);
      cBufP := if refill == ContinueScan then textPtr + amount else nChars;
      resume := if refill == ContinueScan then Match else FindAction;
      assert View(textPtr) == s;
      cp, state := Rescan(resume, s);
    }

    /** The end-of-buffer action, after YY_DO_BEFORE_ACTION has been undone; cBufP stands just past a zero byte. */
    method EndOfBuffer(ghost s: seq<byte>) returns (resume: Resume, cp: nat, state: nat)
      requires BufferOk() && textPtr < cBufP <= nChars + 1 && View(textPtr) == s && chBuf[cBufP - 1] == NUL
      modifies this, chBuf, source
      ensures chBuf == old(chBuf) || fresh(chBuf)
      ensures resume != EndOfFile ==> At(s, resume, textPtr, cp, state)
      ensures resume != EndOfFile ==> Advanced(s, resume, cp - textPtr, |source.pending|, old(cBufP - textPtr - 1), old(|source.pending|))
      ensures resume == EndOfFile ==> s == [] && Valid() && Rest() == []
    {
      ViewCovers(textPtr);
      if status == New {
        status := Normal;
      }
      assert View(textPtr) == s;
      hide View, At, Rest, Valid;
      if cBufP <= nChars {
        resume, cp, state := RealNul(s);
      } else {
        resume, cp, state := NeedInput(s);
      }
    }

    /** yy_find_action: the rule of the state the matcher stopped in, or of the last accepting one. */
    method FindRule(bp: nat, cp: nat, state: nat, ghost s: seq<byte>, ghost overNul: bool) returns (act: nat, end: nat)
      requires bp < cp && 1 <= state <= JAM
      requires overNul ==> state == JAM && lastState == 3 && lastCpos == cp - 1
      requires !overNul ==> cp - bp <= |s| && state == Run(s, cp - bp)
      requires !overNul ==> Stops(state) || CanStop(s, cp - bp)
      requires !overNul && AcceptAt(s, cp - bp) == 0 ==> Remembers(s, bp, cp - bp)
      ensures overNul ==> act == YY_END_OF_BUFFER && end == cp - 1
      ensures !overNul ==> act != YY_END_OF_BUFFER && bp < end <= cp && s != [] && IsNext(s, act, end - bp)
    {
      hide Run, Stops, CanStop, AcceptAt, IsNext, LastAccept;
      TableAcceptAndBase(state);
      if !overNul {
        StoppedLongest(s, cp - bp);
      }
      act, end := YY_ACCEPT[state], cp;
      if act == 0 {
        end := lastCpos;
        TableAcceptAndBase(lastState);
        act := YY_ACCEPT[lastState];
      }
    }

    /** The scan of s has ended: at the end of the file, or with its first token in the buffer. */
    ghost predicate Finished(s: seq<byte>, act: nat)
      reads this, chBuf, source
    {
      && Valid()
      && if s == [] then act == 0 && Rest() == []
         else
           && cBufP - textPtr <= |s| && IsNext(s, act, cBufP - textPtr)
           && chBuf[textPtr..cBufP] == s[..cBufP - textPtr] && Rest() == s[cBufP - textPtr..]
    }

    /** One round of matching and finding an action. A token is left in the buffer; otherwise the scan goes on. */
    method Round(bp: nat, from: nat, q: nat, how: Resume, ghost s: seq<byte>)
      returns (done: bool, act: nat, cp: nat, state: nat, resume: Resume)
      requires how != EndOfFile && At(s, how, bp, from, q)
      modifies this, chBuf, source
      ensures chBuf == old(chBuf) || fresh(chBuf)
      ensures done ==> Finished(s, act)
      ensures !done ==> resume != EndOfFile && At(s, resume, textPtr, cp, state)
      ensures !done ==> |source.pending| <= old(|source.pending|)
      ensures !done && |source.pending| == old(|source.pending|) ==> how == Match
      ensures !done && |source.pending| == old(|source.pending|) ==>
                cp - textPtr > from - bp || (cp - textPtr == from - bp && resume == FindAction)
    {
      hide View, Run, IsLast, Rest, Accept, Stops, CanStop, AcceptAt, Valid, IsNext, Remembers;
      ViewCovers(bp);
      ghost var overNul := false;
      cp, state := from, q;
      if how == Match {
        cp, state, overNul := MatchLoop(bp, from, q, s);
      }
      act, cp := FindRule(bp, cp, state, s, overNul);
      if act != YY_END_OF_BUFFER {
        TakeToken(bp, cp, s);
        return true, act, cp, state, how;
      }
      EnterEndOfBuffer(bp, cp, s);
      resume, cp, state := EndOfBuffer(s);
      done, act := resume == EndOfFile, 0;
    }

    /** One token: yylex from the start of its loop to the point where an action is taken. The result is the rule,
        0 at end of file; the token's text lies in the buffer between textPtr and cBufP, followed by a NUL. */
    method NextToken() returns (act: nat)
      requires Valid()
      modifies this, chBuf, source
      ensures Valid() && (chBuf == old(chBuf) || fresh(chBuf))
      ensures old(Rest()) == [] ==> act == 0 && Rest() == []
      ensures old(Rest()) != [] ==> Token(act, chBuf[textPtr..cBufP]) == FirstToken(old(Rest()))
      ensures old(Rest()) != [] ==> act > 0 && Rest() == old(Rest())[TokenLength(old(Rest()))..]
    {
      ghost var s := Rest();
      var bp, cp, state, resume := cBufP, cBufP, START, Match;
      Restore(s);
      hide View, Run, IsLast, Rest, CanStop, AcceptAt, Valid, FirstToken, TokenLength, IsNext, BufferOk, Remembers;
      var done := false;
      act := 0;
      while !done
        invariant !done ==> resume != EndOfFile && At(s, resume, bp, cp, state)
        invariant done ==> Finished(s, act)
        invariant chBuf == old(chBuf) || fresh(chBuf)
        decreases !done, |source.pending|, |s| + bp - cp, if resume == Match then 1 else 0
      {
        done, act, cp, state, resume := Round(bp, cp, state, resume, s);
        bp := textPtr;
      }
      if s != [] {
        TokenIs(s, act, cBufP - textPtr);
      }
    }

    /** The start of yylex's loop: the character held back returns to its place. */
    method Restore(ghost s: seq<byte>)
      requires Valid() && s == Rest()
      modifies chBuf
      ensures At(s, Match, cBufP, cBufP, START)
    {
      chBuf[cBufP] := holdChar;
      NothingRemembered(s, cBufP);
      assert View(cBufP) == s;
    }
  }

  /** Calls until the end of the file: however the input is split into reads, its tokens are those of the rules. */
  method AllTokens(scanner: Scanner) returns (ts: seq<Token>)
    requires scanner.Valid()
    modifies scanner, scanner.chBuf, scanner.source
    ensures scanner.Valid() && scanner.Rest() == []
    ensures ts == Tokens(old(scanner.Rest()))
  {
    hide FirstToken, TokenLength, Scanner.Rest;
    ghost var whole := Tokens(scanner.Rest());
    ts := [];
    while true
      invariant scanner.Valid() && (scanner.chBuf == old(scanner.chBuf) || fresh(scanner.chBuf))
      invariant whole == ts + Tokens(scanner.Rest())
      decreases |scanner.Rest()|
    {
      ghost var s := scanner.Rest();
      var act := scanner.NextToken();
      if act == 0 {
        return;
      }
      var t := Token(act, scanner.chBuf[scanner.textPtr..scanner.cBufP]);
      assert whole == ts + ([t] + Tokens(scanner.Rest()));
      ts := ts + [t];
    }
  }

  /** act and length are those of the first token of s. */
  ghost predicate IsNext(s: seq<byte>, act: nat, length: int)
    requires s != []
  {
    length == TokenLength(s) && act == FirstRule(s[..length]) && 0 < act < YY_END_OF_BUFFER
  }

  /** The automaton cannot go on after k bytes: the input ends, or the next byte jams it. */
  ghost predicate CanStop(s: seq<byte>, k: nat)
    requires k <= |s|
  {
    k == |s| || Run(s, k + 1) == JAM
  }

  /** After an end-of-buffer action that stopped at a zero byte behind k bytes of s with `before` bytes to come:
      input has been read, or the NUL has been passed, or the scan is about to end. */
  ghost predicate Advanced(s: seq<byte>, resume: Resume, k': int, after: nat, k: int, before: nat) {
    || (resume == Match && after < before)
    || (resume == Match && after == before && k' == k + 1)
    || (resume == FindAction && after == before && k' >= k)
  }

  /** No first byte jams. */
  lemma FirstMoves(s: seq<byte>)
    requires s != []
    ensures Run(s, 1) != JAM
  {
    assert Run(s, 0) == START;
  }

  lemma TokenIs(s: seq<byte>, act: nat, k: int)
    requires s != [] && IsNext(s, act, k)
    ensures 0 < k <= |s| && act > 0 && Token(act, s[..k]) == FirstToken(s) && k == TokenLength(s)
  {
  }

  /** BackUpIsLongest at the place where the matcher stopped. */
  lemma StoppedLongest(s: seq<byte>, k: nat)
    requires 1 <= k <= |s| && (Stops(Run(s, k)) || CanStop(s, k))
    ensures AcceptAt(s, k) == Accept(Run(s, k))
    ensures AcceptAt(s, k) > 0 ==> IsNext(s, AcceptAt(s, k), k)
    ensures AcceptAt(s, k) == 0 ==> 0 < LastAccept(s, k) < k && IsNext(s, AcceptAt(s, LastAccept(s, k)), LastAccept(s, k))
    ensures AcceptAt(s, k) == 0 ==> AcceptAt(s, LastAccept(s, k)) == Accept(Run(s, LastAccept(s, k)))
  {
    hide Run, LastAccept, FirstRule, TokenLength;
    BackUpIsLongest(s, k);
    LastAcceptMeaning(s, k);
  }

  lemma StopsBefore(s: seq<byte>, k: nat, bp: nat, state: nat, cpos: nat)
    requires k < |s| && IsLast(s, bp, k + 1, state, cpos)
    ensures AcceptAt(s, k) == 0 ==> IsLast(s, bp, k, state, cpos)
  {
    hide Run, AcceptAt;
  }

  lemma EcRange(b: byte)
    ensures Ec(b) <= 7
  {
  }

  ghost predicate IsLast(s: seq<byte>, bp: nat, k: nat, state: nat, cpos: nat)
    requires k <= |s|
  {
    var j := LastAccept(s, k);
    j > 0 ==> cpos == bp + j && state == Run(s, j)
  }

  lemma LastMoves(s: seq<byte>, bp: nat, k: nat, state: nat, cpos: nat, state': nat, cpos': nat)
    requires k < |s| && IsLast(s, bp, k, state, cpos)
    requires AcceptAt(s, k) > 0 ==> state' == Run(s, k) && cpos' == bp + k
    requires AcceptAt(s, k) == 0 ==> state' == state && cpos' == cpos
    ensures IsLast(s, bp, k + 1, state', cpos')
  {
    hide Run, AcceptAt;
  }
}
