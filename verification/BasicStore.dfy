/** The program store of basic.c as it is: one byte array that is edited in place. */
module BasicStore {
  import opened Bytes
  import opened BasicLines
  import opened BasicNumber

  /** The room on the stack that the digits of a number need. */
  const DIGITS := 20

  class Store {
    const program: array<byte>
    const variablesBegin: nat
    var programEnd: nat
    var txtpos: nat
    var linenum: nat
    var sp: nat
    var out: seq<byte>
    ghost var lines: Listing

    /** A cold start: no program, and the stack pointer at the end of memory. */
    constructor (ram: nat, variablesBegin: nat)
      requires variablesBegin <= ram
      ensures Valid() && lines == End && sp == program.Length == ram && this.variablesBegin == variablesBegin
      ensures fresh(program)
    {
      program := new byte[ram];
      this.variablesBegin := variablesBegin;
      programEnd, txtpos, linenum, sp, out, lines := 0, 0, 0, ram, [], End;
    }

    /** The bytes up to `programEnd` are the encoding of `lines`. */
    ghost predicate Valid()
      reads this, program
    {
      && programEnd <= variablesBegin <= program.Length
      && Sound(lines) && program[..programEnd] == Encode(lines)
    }

    /** `findline`: the first line whose number is not below `linenum`. */
    method FindLine() returns (line: nat)
      requires Valid()
      ensures line <= programEnd
      ensures program[..line] == Encode(Below(lines, linenum))
      ensures program[line..programEnd] == Encode(From(lines, linenum))
    {
      line := 0;
      ghost var p, rest := program[..], lines;
      while true
        invariant line <= programEnd && Sound(rest) && p[line..programEnd] == Encode(rest)
        invariant From(rest, linenum) == From(lines, linenum)
        decreases programEnd - line
      {
        LineAt(p, line, programEnd, rest);
        if line == programEnd {
          break;
        }
        if Word(program[line], program[line + 1], program[line + 2], program[line + 3]) >= linenum {
          break;
        }
        line := line + program[line + 4];
        rest := rest.rest;
      }
      assert p[..programEnd] == p[..line] + p[line..programEnd];
      BytesBelow(lines, linenum, rest, p[..line]);
    }

    method Put(i: nat, b: byte)
      requires i < program.Length
      modifies program
      ensures program[..] == old(program[..])[i := b]
    {
      program[i] := b;
    }

    /** The removal loop: everything from `from` to `programEnd` moves down to `start`. */
    method CloseGap(start: nat, from: nat)
      requires start <= from <= programEnd <= program.Length
      modifies program, this`programEnd
      ensures programEnd == old(programEnd) - (from - start)
      ensures program[..start] == old(program[..start])
      ensures program[start..programEnd] == old(program[from..programEnd])
      ensures program[old(programEnd)..] == old(program[programEnd..])
    {
      ghost var p := program[..];
      var dest, src, tomove := start, from, programEnd - from;
      while tomove > 0
        invariant programEnd == old(programEnd)
        invariant 0 <= tomove && src == from + (dest - start) && tomove == programEnd - src && start <= dest
        invariant program[..] == MovedDown(p, start, from, dest - start)
      {
        MovedAbove(p, start, from, dest - start, src);
        Put(dest, program[src]);
        src, dest, tomove := src + 1, dest + 1, tomove - 1;
      }
      Closed(p, program[..], start, from, programEnd);
      programEnd := dest;
    }

    /** The first inner loop of the insertion: the bytes from `start` to `programEnd` move up
        by `n`, the last one first. */
    method MoveUp(start: nat, n: nat)
      requires start <= programEnd && programEnd + n <= program.Length
      modifies program
      ensures forall i {:trigger program[i]} :: start + n <= i < programEnd + n ==>
        program[i] == old(program[..])[i - n]
      ensures forall i {:trigger program[i]} :: 0 <= i < start + n || programEnd + n <= i < program.Length ==>
        program[i] == old(program[..])[i]
    {
      ghost var p := program[..];
      var from, dest, tomove := programEnd, programEnd + n, programEnd - start;
      while tomove > 0
        invariant 0 <= tomove && from == start + tomove && dest == from + n && from <= programEnd
        invariant forall i {:trigger program[i]} :: dest <= i < programEnd + n ==> program[i] == p[i - n]
        invariant forall i {:trigger program[i]} :: 0 <= i < dest || programEnd + n <= i < program.Length ==>
          program[i] == p[i]
      {
        from, dest := from - 1, dest - 1;
        program[dest] := program[from];
        tomove := tomove - 1;
      }
    }

    /** The second inner loop of the insertion: `n` pending bytes are copied to `start`. */
    method CopyPending(start: nat, n: nat)
      requires start + n <= txtpos && txtpos + n <= program.Length
      modifies program, this`txtpos
      ensures txtpos == old(txtpos) + n
      ensures forall i {:trigger program[i]} :: start <= i < start + n ==>
        program[i] == old(program[..])[i - start + old(txtpos)]
      ensures forall i {:trigger program[i]} :: 0 <= i < start || start + n <= i < program.Length ==>
        program[i] == old(program[..])[i]
    {
      ghost var p := program[..];
      var tomove := 0;
      while tomove < n
        invariant 0 <= tomove <= n && txtpos == old(txtpos) + tomove
        invariant forall i {:trigger program[i]} :: start <= i < start + tomove ==>
          program[i] == p[i - start + old(txtpos)]
        invariant forall i {:trigger program[i]} :: 0 <= i < start || start + tomove <= i < program.Length ==>
          program[i] == p[i]
      {
        program[start + tomove] := program[txtpos];
        txtpos := txtpos + 1;
        tomove := tomove + 1;
      }
    }

    method MakeRoom(start: nat, n: nat)
      requires start <= programEnd && programEnd + n <= txtpos && txtpos + n <= program.Length
      modifies program, this`txtpos
      ensures txtpos == old(txtpos) + n
      ensures Shuffled(old(program[..]), program[..], start, programEnd, old(txtpos), n)
    {
      ghost var p := program[..];
      MoveUp(start, n);
      ghost var q := program[..];
      CopyPending(start, n);
      ShuffledInTwo(p, q, program[..], start, programEnd, old(txtpos), n);
    }

    /** The first `d` bytes of the pending line have been inserted into the store `p`. */
    ghost predicate Inserted(p: seq<byte>, e: Edit, d: int)
      reads this, program
    {
      && program.Length == |p| && e.Fits(p, d) && programEnd == e.pe + d && txtpos == e.tp + d
      && program[..programEnd] == e.Result(p, d) && program[txtpos..] == p[txtpos..]
    }

    /** One round of the insertion loop: `n` more bytes of the pending line, no more than fit
        into the gap, are inserted. */
    method Shuffle(start: nat, n: nat, ghost p: seq<byte>, ghost e: Edit, ghost d: nat)
      requires Inserted(p, e, d) && start == e.at + d && programEnd + n <= txtpos && txtpos + n <= program.Length
      modifies program, this`programEnd, this`txtpos
      ensures Inserted(p, e, d + n)
    {
      ghost var q := program[..];
      MakeRoom(start, n);
      ghost var r := program[..];
      Grown(p, q, r, e, d, start, programEnd, old(txtpos), n);
      programEnd := programEnd + n;
      assert program[..programEnd] == r[..programEnd] && program[txtpos..] == r[txtpos..];
    }

    /** The insertion loop: room for the pending line is made in steps no larger than the gap
        between the program and the pending line.  Whatever the gap, the result is that of a single splice. */
    method Splice(at: nat, len: nat)
      requires at <= programEnd < txtpos && txtpos + len <= program.Length
      modifies program, this`programEnd, this`txtpos
      ensures programEnd == old(programEnd) + len && txtpos == old(txtpos) + len
      ensures program[..programEnd] == old(program[..at] + program[txtpos..txtpos + len] + program[at..programEnd])
      ensures program[txtpos..] == old(program[..])[txtpos..]
    {
      ghost var p, e := program[..], Edit(at, programEnd, txtpos);
      ghost var a, b, c := program[..at], program[txtpos..txtpos + len], program[at..programEnd];
      assert p[..at] == a && p[txtpos..txtpos + len] == b && p[at..programEnd] == c;
      StartInserting(p, e);
      InsertPending(at, len, p, e);
      assert e.Result(p, len) == a + b + c;
    }

    lemma StartInserting(p: seq<byte>, e: Edit)
      requires p == program[..] && e.Fits(p, 0) && e.pe == programEnd && e.tp == txtpos
      ensures Inserted(p, e, 0)
    {
      NothingInserted(p, e);
      assert program[..programEnd] == p[..programEnd] && program[txtpos..] == p[txtpos..];
    }

    method InsertPending(at: nat, len: nat, ghost p: seq<byte>, ghost e: Edit)
      requires Inserted(p, e, 0) && at == e.at && e.pe < e.tp && e.tp + len <= |p|
      modifies program, this`programEnd, this`txtpos
      ensures Inserted(p, e, len)
    {
      ghost var d := 0;
      var start, linelen := at, len;
      while linelen > 0
        invariant 0 <= d && 0 <= linelen == len - d && start == at + d
        invariant Inserted(p, e, d)
        decreases linelen
      {
        var spaceToMake := txtpos - programEnd;
        if spaceToMake > linelen {
          spaceToMake := linelen;
        }
        Shuffle(start, spaceToMake, p, e, d);
        start, linelen := start + spaceToMake, linelen - spaceToMake;
        d := d + spaceToMake;
      }
    }

    /** The removal of the line found at `start`, if it has the number `linenum`.  The listing
        `f` stands in the store from `start` on. */
    method RemoveOld(start: nat, ghost f: Listing)
      requires start <= programEnd <= program.Length && Sound(f) && program[start..programEnd] == Encode(f)
      modifies program, this`programEnd
      ensures start <= programEnd <= old(programEnd)
      ensures program[..start] == old(program[..start])
      ensures program[start..programEnd] == Encode(if f.Then? && f.line.num == linenum then f.rest else f)
      ensures program[old(programEnd)..] == old(program[programEnd..])
    {
      LineAt(program[..], start, programEnd, f);
      if start != programEnd
        && Word(program[start], program[start + 1], program[start + 2], program[start + 3]) == linenum {
        var from := start + program[start + 4];
        CloseGap(start, from);
      }
    }

    /** The pending bytes are not touched by the removal. */
    method RemoveBefore(start: nat, ghost len: nat, ghost f: Listing)
      requires start <= programEnd < txtpos && txtpos + len <= program.Length
      requires Sound(f) && program[start..programEnd] == Encode(f)
      modifies program, this`programEnd
      ensures start <= programEnd <= old(programEnd)
      ensures program[..start] == old(program[..start])
      ensures program[start..programEnd] == Encode(if f.Then? && f.line.num == linenum then f.rest else f)
      ensures program[txtpos..txtpos + len] == old(program[txtpos..txtpos + len])
    {
      ghost var p, end := program[..], programEnd;
      RemoveOld(start, f);
      TailSlice(p, program[..], end, txtpos - end, txtpos - end + len);
    }

    /** The merge of the pending bytes `e` into the program: the line with number `linenum`
        goes, and the first `linelen` bytes come in its place unless the new line has no text. */
    method Merge(linelen: nat, ghost e: seq<byte>)
      requires Valid() && programEnd < txtpos && txtpos + |e| <= variablesBegin
      requires program[txtpos..txtpos + |e|] == e && |e| > HEADER && linelen <= |e|
      modifies program, this`programEnd, this`txtpos
      ensures programEnd <= variablesBegin
      ensures program[..programEnd] == Encode(Below(lines, linenum))
        + (if e[HEADER] == NL then [] else e[..linelen]) + Encode(Above(lines, linenum))
    {
      SplitSound(lines, linenum);
      ghost var f, a, b := From(lines, linenum), Encode(Below(lines, linenum)), Encode(Above(lines, linenum));
      var start := FindLine();
      assert Above(lines, linenum) == if f.Then? && f.line.num == linenum then f.rest else f;
      RemoveBefore(start, |e|, f);
      assert program[start..programEnd] == b;
      ReplaceWith(start, linelen, a, e, b);
    }

    /** The second half of the merge, once no line has the number of the new one: `a` and `b`
        are the bytes of the lines below and above it, and `e` those of the line itself. */
    method ReplaceWith(start: nat, linelen: nat, ghost a: seq<byte>, ghost e: seq<byte>, ghost b: seq<byte>)
      requires start <= programEnd < txtpos && txtpos + |e| <= variablesBegin <= program.Length
      requires program[..start] == a && program[start..programEnd] == b && program[txtpos..txtpos + |e|] == e
      requires |e| > HEADER && linelen <= |e|
      modifies program, this`programEnd, this`txtpos
      ensures programEnd <= variablesBegin
      ensures program[..programEnd] == a + (if e[HEADER] == NL then [] else e[..linelen]) + b
    {
      assert program[txtpos + HEADER] == e[HEADER];
      if program[txtpos + HEADER] == NL {
        assert program[..programEnd] == a + [] + b;
      } else {
        assert program[txtpos..txtpos + linelen] == e[..linelen];
        Splice(start, linelen);
      }
    }

    /** `getln`: the typed characters are stored behind the program. */
    method GetLine(typed: seq<byte>)
      requires programEnd + 4 + |typed| <= program.Length
      modifies program
      ensures program[programEnd + 4..programEnd + 4 + |typed|] == typed
      ensures program[..programEnd] == old(program[..programEnd])
    {
      ghost var p := program[..];
      var at := programEnd + 4;
      var i := 0;
      while i < |typed|
        invariant 0 <= i <= |typed|
        invariant forall k {:trigger program[k]} :: 0 <= k < at ==> program[k] == p[k]
        invariant forall k {:trigger program[k]} :: at <= k < at + i ==> program[k] == typed[k - at]
      {
        program[at + i] := typed[i];
        i := i + 1;
      }
    }

    /** The move of the typed line to the end of the free memory, the newline first. */
    method MoveToEnd(ghost typed: seq<byte>)
      requires programEnd + 4 + |typed| < variablesBegin <= program.Length && Typed(typed)
      requires program[programEnd + 4..programEnd + 4 + |typed|] == typed
      modifies program, this`txtpos
      ensures txtpos + |typed| == variablesBegin && program[txtpos..variablesBegin] == typed
      ensures program[..programEnd] == old(program[..programEnd])
    {
      ghost var q, n := program[..], |typed|;
      var at := programEnd + 4;
      assert forall k {:trigger q[k]} :: at <= k < at + n ==> q[k] == typed[k - at];
      var from := at;
      while program[from] != NL
        invariant at <= from < at + n
        decreases at + n - from
      {
        assert q[from] != NL;
        from := from + 1;
      }
      assert q[from] == NL;
      MoveBack(from, q, typed);
      LandedParts(q, typed, variablesBegin, n);
      PrefixSlice(q, program[..], variablesBegin - n, programEnd);
    }

    /** The second loop of the move: from the newline at `start` back to the first byte. */
    method MoveBack(start: nat, ghost q: seq<byte>, ghost typed: seq<byte>)
      requires programEnd + 4 + |typed| < variablesBegin <= program.Length
      requires start == programEnd + 3 + |typed| && typed != []
      requires program[..] == q && q[programEnd + 4..programEnd + 4 + |typed|] == typed
      modifies program, this`txtpos
      ensures txtpos + |typed| == variablesBegin && program[..] == Landed(q, typed, variablesBegin, |typed|)
    {
      var from, dest := start, variablesBegin - 1;
      ghost var n := 0;
      while true
        invariant programEnd + 4 <= from == start - n && dest == variablesBegin - 1 - n && 0 <= n
        invariant program[..] == Landed(q, typed, variablesBegin, n)
        decreases from
      {
        MoveByte(from, dest, q, typed, n);
        n := n + 1;
        if from == programEnd + 4 {
          break;
        }
        dest, from := dest - 1, from - 1;
      }
      txtpos := dest;
    }

    method MoveByte(from: nat, dest: nat, ghost q: seq<byte>, ghost typed: seq<byte>, ghost n: nat)
      requires n < |typed| && programEnd + 4 + |typed| < variablesBegin <= program.Length == |q|
      requires from == programEnd + 3 + |typed| - n && dest == variablesBegin - 1 - n
      requires q[programEnd + 4..programEnd + 4 + |typed|] == typed
      requires program[..] == Landed(q, typed, variablesBegin, n)
      modifies program
      ensures program[..] == Landed(q, typed, variablesBegin, n + 1)
    {
      LandOne(q, program[..], typed, programEnd + 4, variablesBegin, n);
      Put(dest, program[from]);
    }

    /** The typed line stands at the end of the free memory. */
    ghost predicate Holding(typed: seq<byte>)
      reads this, program
    {
      && Typed(typed) && |typed| <= variablesBegin <= program.Length
      && program[variablesBegin - |typed|..variablesBegin] == typed
    }

    /** `ignore_blanks`. */
    method IgnoreBlanks(ghost typed: seq<byte>)
      requires Holding(typed) && variablesBegin - |typed| <= txtpos < variablesBegin
      modifies this`txtpos
      ensures txtpos - (variablesBegin - |typed|) == SkipBlanks(typed, old(txtpos) - (variablesBegin - |typed|))
      ensures old(txtpos) <= txtpos < variablesBegin
    {
      ghost var base := variablesBegin - |typed|;
      BlanksBefore(typed, txtpos - base);
      while program[txtpos] == 32 || program[txtpos] == 9
        invariant old(txtpos) <= txtpos < variablesBegin && program[base..variablesBegin] == typed
        invariant SkipBlanks(typed, txtpos - base) == SkipBlanks(typed, old(txtpos) - base)
        decreases variablesBegin - txtpos
      {
        assert program[txtpos] == typed[txtpos - base];
        txtpos := txtpos + 1;
      }
      assert program[txtpos] == typed[txtpos - base];
    }

    /** `testnum`. */
    method TestNum(ghost typed: seq<byte>) returns (num: nat)
      requires Holding(typed) && txtpos == variablesBegin - |typed|
      modifies this`txtpos
      ensures (num, txtpos - old(txtpos)) == NumberOf(typed)
      ensures old(txtpos) <= txtpos < variablesBegin
    {
      ghost var base := variablesBegin - |typed|;
      num := 0;
      IgnoreBlanks(typed);
      ghost var i := txtpos - base;
      DigitsBefore(typed, i, 0);
      while IsDigit(program[txtpos])
        invariant base + i <= txtpos < variablesBegin && program[base..variablesBegin] == typed
        invariant Digits(typed, txtpos - base, num) == Digits(typed, i, 0)
        decreases variablesBegin - txtpos
      {
        assert program[txtpos] == typed[txtpos - base];
        if num >= MAX_UINT / 10 {
          num := MAX_UINT;
          return;
        }
        num := num * 10 + (program[txtpos] - 48);
        txtpos := txtpos + 1;
      }
      assert program[txtpos] == typed[txtpos - base];
    }

    /** The length of the line to come, counted up to the newline, header included.  It is
        counted in a byte, so that the loop would not end on a longer text. */
    method LineLength(ghost text: seq<byte>) returns (linelen: byte)
      requires txtpos + |text| < program.Length && NL !in text && |text| < 0x100
      requires program[txtpos..txtpos + |text| + 1] == text + [NL]
      ensures linelen == (|text| + HEADER + 1) % 0x100
    {
      ghost var t := text + [NL];
      linelen := 0;
      while program[txtpos + linelen] != NL
        invariant linelen <= |text|
        decreases |text| - linelen
      {
        assert program[txtpos + linelen] == t[linelen];
        linelen := (linelen + 1) % 0x100;
      }
      assert program[txtpos + linelen] == t[linelen];
      linelen := (linelen + 1) % 0x100;
      linelen := (linelen + HEADER) % 0x100;
    }

    /** Five bytes are stored in front of `txtpos`: `*(LINENUM *)txtpos` and the length byte. */
    method StoreHeader(w: seq<byte>, linelen: byte)
      requires |w| == 4 && HEADER <= txtpos <= program.Length
      modifies program, this`txtpos
      ensures txtpos == old(txtpos) - HEADER && program[txtpos..txtpos + HEADER] == w + [linelen]
      ensures program[..txtpos] == old(program[..txtpos - HEADER])
      ensures program[txtpos + HEADER..] == old(program[txtpos..])
    {
      txtpos := txtpos - HEADER;
      program[txtpos] := w[0];
      program[txtpos + 1] := w[1];
      program[txtpos + 2] := w[2];
      program[txtpos + 3] := w[3];
      program[txtpos + 4] := linelen;
    }

    /** The header is put in front of the text. */
    method AddHeader(linelen: byte, ghost l: Line)
      requires HEADER <= txtpos && programEnd + HEADER <= txtpos && txtpos + |l.text| < program.Length
      requires linenum == l.num && linelen == LengthByte(l)
      requires program[txtpos..txtpos + |l.text| + 1] == l.text + [NL]
      modifies program, this`txtpos
      ensures txtpos == old(txtpos) - HEADER && program[txtpos..txtpos + |EncodeLine(l)|] == EncodeLine(l)
      ensures program[..programEnd] == old(program[..programEnd])
    {
      ghost var t, n := program[txtpos..], |l.text| + 1;
      assert t[..n] == l.text + [NL];
      StoreHeader(LittleEndian(linenum), linelen);
      ghost var q, p := program[..], txtpos;
      assert q[p..p + HEADER + n] == q[p..p + HEADER] + q[p + HEADER..][..n];
      HeaderFirst(l);
    }

    /** The line number of the typed line is read, and the text after it found. */
    method ReadEntry(ghost typed: seq<byte>)
      requires Holding(typed) && txtpos == variablesBegin - |typed|
      modifies this`txtpos, this`linenum
      ensures linenum == Entry(typed).num
      ensures txtpos == old(txtpos) + TextStart(typed) && txtpos + |Entry(typed).text| + 1 == variablesBegin
      ensures program[txtpos..variablesBegin] == Entry(typed).text + [NL]
      ensures linenum != 0 ==> txtpos > old(txtpos)
    {
      var num := TestNum(typed);
      linenum := num % 0x1_0000_0000;
      IgnoreBlanks(typed);
      assert program[txtpos..variablesBegin] == typed[TextStart(typed)..];
      EntryParts(typed);
    }

    /** The numbered text at `txtpos` gets its header and is merged into the program. */
    method StoreEntry(ghost l: Line)
      requires Valid() && programEnd + HEADER < txtpos && txtpos + |l.text| + 1 == variablesBegin
      requires program[txtpos..variablesBegin] == l.text + [NL] && linenum == l.num && |l.text| < 0x100 && Typeable(l)
      modifies this, program
      ensures programEnd <= variablesBegin <= program.Length && program[..programEnd] == Merged(old(lines), l)
      ensures |l.text| + HEADER + 1 < 0x100 ==> Valid() && lines == Enter(old(lines), l)
    {
      var linelen := LineLength(l.text);
      AddHeader(linelen, l);
      MergeEntry(linelen, l, EncodeLine(l));
    }

    method MergeEntry(linelen: byte, ghost l: Line, ghost e: seq<byte>)
      requires Valid() && programEnd < txtpos && txtpos + |e| <= variablesBegin && program[txtpos..txtpos + |e|] == e
      requires e == EncodeLine(l) && linelen == LengthByte(l) && linenum == l.num && Typeable(l)
      modifies this, program
      ensures programEnd <= variablesBegin <= program.Length && program[..programEnd] == Merged(old(lines), l)
      ensures |l.text| + HEADER + 1 < 0x100 ==> Valid() && lines == Enter(old(lines), l)
    {
      MergePlan(lines, l, e);
      Merge(linelen, e);
      if |l.text| + HEADER + 1 < 0x100 {
        lines := Enter(lines, l);
      }
    }

    /** A line has been typed: without a number it is a direct statement; a number too large
        is refused; otherwise the line is merged into the program, and entered if its length
        fits a byte. */
    method EnterLine(typed: seq<byte>) returns (r: Outcome)
      requires Valid() && Typed(typed) && programEnd + 4 + |typed| < variablesBegin
      requires 0 < Entry(typed).num < LINENUM_END ==> |Entry(typed).text| < 0x100
      modifies this, program
      ensures r.Direct? <==> Entry(typed).num == 0
      ensures r.How? <==> Entry(typed).num == LINENUM_END
      ensures !r.Stored? ==> Valid() && lines == old(lines)
      ensures programEnd <= variablesBegin <= program.Length
      ensures r.Stored? ==> program[..programEnd] == Merged(old(lines), Entry(typed))
      ensures r.Stored? && |Entry(typed).text| + HEADER + 1 < 0x100 ==>
        Valid() && lines == Enter(old(lines), Entry(typed))
    {
      GetLine(typed);
      MoveToEnd(typed);
      ReadEntry(typed);
      if linenum == 0 {
        return Direct;
      }
      if linenum == LINENUM_END {
        return How;
      }
      EntryParts(typed);
      StoreEntry(Entry(typed));
      r := Stored;
    }

    /** `ub_outchar`. */
    method OutChar(c: byte)
      modifies this`out
      ensures out == old(out) + [c]
    {
      out := out + [c];
    }

    /** `pushb`. */
    method PushByte(b: byte)
      requires 0 < sp <= program.Length
      modifies program, this`sp
      ensures sp == old(sp) - 1 && program[..] == old(program[..])[sp := b]
    {
      sp := sp - 1;
      program[sp] := b;
    }

    /** The first loop of `printnum`: the digits are pushed, the last one first. */
    method PushDigits(n: int) returns (digits: nat)
      requires DIGITS <= sp <= program.Length && (0 <= n <= MAX || n == MIN)
      modifies program, this`sp
      ensures digits == |DigitText(n)| && sp == old(sp) - digits && old(sp) - DIGITS < sp
      ensures program[..] == Pushed(old(program[..]), old(sp), DigitText(n))
    {
      ghost var p, top, w := program[..], sp, DigitText(n);
      ghost var tail: seq<byte> := [];
      DigitRoom(n, w);
      var num := n;
      digits := 0;
      while true
        invariant 0 <= digits == |tail| < |w| && Round(n, num, tail)
        invariant Pushing(p, top, tail)
        decreases if num < 0 then 1 else num
      {
        num, tail := PushDigit(num, n, p, top, tail, w);
        digits := digits + 1;
        if num <= 0 {
          break;
        }
      }
    }

    /** The bytes `tail` have been pushed onto a stack with its top at `top`. */
    ghost predicate Pushing(p: seq<byte>, top: nat, tail: seq<byte>)
      reads this, program
    {
      |tail| <= top <= |p| && sp == top - |tail| && program[..] == Pushed(p, top, tail)
    }

    /** One round of that loop. */
    method PushDigit(num: int, ghost n: int, ghost p: seq<byte>, ghost top: nat, ghost tail: seq<byte>,
                     ghost w: seq<byte>) returns (rest: int, ghost more: seq<byte>)
      requires (n >= 0 || n == MIN) && w == DigitText(n) && Round(n, num, tail)
      requires |tail| < |w| <= top && Pushing(p, top, tail)
      modifies program, this`sp
      ensures |more| == |tail| + 1 && Pushing(p, top, more)
      ensures rest <= 0 ==> more == w
      ensures rest > 0 ==> rest < num && |more| < |w| && Round(n, rest, more)
    {
      NextRound(n, num, tail);
      var c := Rem(num, 10) + 48;
      PushOnTop(p, top, tail, c);
      PushByte(c);
      rest, more := Quot(num, 10), [c] + tail;
    }

    /** The second loop of `printnum`: the digits are popped and written. */
    method PopDigits(count: nat)
      requires sp + count <= program.Length
      modifies this`sp, this`out
      ensures sp == old(sp) + count && out == old(out) + program[old(sp)..sp]
    {
      var digits := count;
      while digits > 0
        invariant 0 <= digits && sp == old(sp) + (count - digits) && out == old(out) + program[old(sp)..sp]
        decreases digits
      {
        var b := program[sp];
        sp := sp + 1;
        assert program[old(sp)..sp] == program[old(sp)..sp - 1] + [b];
        OutChar(b);
        digits := digits - 1;
      }
    }

    /** `printnum`: the stack serves as scratch, and is left as it was from `sp` on. */
    method PrintNum(n: int)
      requires DIGITS <= sp <= program.Length && MIN <= n <= MAX
      modifies program, this`sp, this`out
      ensures sp == old(sp) && out == old(out) + NumText(n)
      ensures program[sp..] == old(program[sp..])
      ensures program[..sp - DIGITS] == old(program[..sp - DIGITS])
      ensures programEnd + DIGITS <= sp ==> program[..programEnd] == old(program[..programEnd])
    {
      var num := n;
      if num < 0 {
        num := Wrap(-num);
        OutChar(45);
      }
      PrintDigits(num);
    }

    /** The two loops of `printnum`, on a number whose sign has been dealt with. */
    method PrintDigits(num: int)
      requires DIGITS <= sp <= program.Length && (0 <= num <= MAX || num == MIN)
      modifies program, this`sp, this`out
      ensures sp == old(sp) && out == old(out) + DigitText(num)
      ensures program[sp..] == old(program[sp..])
      ensures program[..sp - DIGITS] == old(program[..sp - DIGITS])
      ensures programEnd + DIGITS <= sp ==> program[..programEnd] == old(program[..programEnd])
    {
      ghost var p, top := program[..], sp;
      var digits := PushDigits(num);
      ghost var low := if programEnd + DIGITS <= top then programEnd else 0;
      PushedParts(p, top, DigitText(num), program[..], top - DIGITS, low);
      PopDigits(digits);
    }

    /** The loop of `printline`: text of the program `p` is written up to the newline. */
    method PrintText(at: nat, ghost p: seq<byte>, ghost text: seq<byte>) returns (next: nat)
      requires programEnd <= program.Length && program[..programEnd] == p && at + |text| < |p| && NL !in text
      requires p[at..at + |text|] == text && p[at + |text|] == NL
      modifies this`out
      ensures out == old(out) + text && next == at + |text|
    {
      next := at;
      while program[next] != NL
        invariant at <= next <= at + |text| && out == old(out) + text[..next - at]
        decreases at + |text| - next
      {
        assert p[next] != NL;
        assert p[next] == text[next - at];
        assert text[..next - at + 1] == text[..next - at] + [text[next - at]];
        OutChar(program[next]);
        next := next + 1;
      }
      assert p[next] == NL;
      assert text[..|text|] == text;
    }

    /** `printline`: the line at `listLine` is written up to its newline, and `next` is the
        position after the newline.  `p` is the program. */
    method PrintLine(listLine: nat, ghost p: seq<byte>, ghost ls: Listing) returns (next: nat)
      requires programEnd + DIGITS <= sp <= program.Length && program[..programEnd] == p
      requires listLine <= programEnd && Sound(ls) && ls.Then? && p[listLine..] == Encode(ls)
      modifies program, this`sp, this`out
      ensures sp == old(sp) && out == old(out) + ListText(ls.line) && program[..programEnd] == p
      ensures listLine < next <= programEnd && p[next..] == Encode(ls.rest)
    {
      LineAt(p, listLine, programEnd, ls);
      var lineNum := Word(program[listLine], program[listLine + 1], program[listLine + 2], program[listLine + 3]);
      Assemble(out, Decimal(ls.line.num), ls.line.text);
      next := PrintParts(lineNum, listLine + HEADER, p, ls.line.text);
      next := next + 1;
    }

    method PrintParts(lineNum: nat, at: nat, ghost p: seq<byte>, ghost text: seq<byte>) returns (next: nat)
      requires programEnd + DIGITS <= sp <= program.Length && program[..programEnd] == p && lineNum <= MAX
      requires at + |text| < |p| && NL !in text && p[at..at + |text|] == text && p[at + |text|] == NL
      modifies program, this`sp, this`out
      ensures sp == old(sp) && program[..programEnd] == p && next == at + |text|
      ensures out == old(out) + Decimal(lineNum) + [32] + text + [NL] + [13]
    {
      PrintNum(lineNum);
      OutChar(32);
      next := PrintText(at, p, text);
      OutChar(NL);
      OutChar(13);
    }

    /** LIST from a line number on: the walk from newline to newline visits the same lines
        as the walk along the length bytes. */
    method List()
      requires Valid() && variablesBegin + DIGITS <= sp <= program.Length
      modifies program, this`sp, this`out
      ensures Valid() && out == old(out) + Written(From(lines, linenum), ListText)
    {
      var listLine := FindLine();
      SplitSound(lines, linenum);
      ListFrom(listLine, program[..programEnd], From(lines, linenum));
    }

    method ListFrom(at: nat, ghost p: seq<byte>, ghost ls: Listing)
      requires programEnd + DIGITS <= sp <= program.Length && program[..programEnd] == p
      requires at <= programEnd && Sound(ls) && p[at..] == Encode(ls)
      modifies program, this`sp, this`out
      ensures program[..programEnd] == p && out == old(out) + Written(ls, ListText)
    {
      var listLine := at;
      ghost var rest, all := ls, old(out) + Written(ls, ListText);
      while listLine != programEnd
        invariant program[..programEnd] == p && sp == old(sp) && listLine <= programEnd
        invariant Sound(rest) && p[listLine..] == Encode(rest) && out + Written(rest, ListText) == all
        decreases programEnd - listLine
      {
        LineAt(p, listLine, programEnd, rest);
        WrittenStep(out, rest, ListText);
        listLine := PrintLine(listLine, p, rest);
        rest := rest.rest;
      }
      LineAt(p, listLine, programEnd, rest);
      assert out + [] == out;
    }
  }

  lemma Assemble(o: seq<byte>, d: seq<byte>, t: seq<byte>)
    ensures o + d + [32] + t + [NL] + [13] == o + (d + [32] + t + [NL, 13])
  {
  }

  // ----- a listed line typed again -----

  /** The bytes `w` are pushed on the stack of which `top` is the top. */
  function Pushed(p: seq<byte>, top: nat, w: seq<byte>): seq<byte>
    requires |w| <= top <= |p|
  {
    p[..top - |w|] + w + p[top..]
  }

  lemma DigitRoom(n: int, w: seq<byte>)
    requires (0 <= n <= MAX || n == MIN) && w == DigitText(n)
    ensures 0 < |w| < DIGITS
  {
    if n >= 0 {
      ShortNumbers(n);
    }
  }

  lemma PushOnTop(p: seq<byte>, top: nat, w: seq<byte>, c: byte)
    requires |w| < top <= |p|
    ensures Pushed(p, top, w)[top - |w| - 1 := c] == Pushed(p, top, [c] + w)
  {
  }

  lemma PushedParts(p: seq<byte>, top: nat, w: seq<byte>, q: seq<byte>, low: nat, lower: nat)
    requires |w| <= top <= |p| && q == Pushed(p, top, w) && lower <= low <= top - |w|
    ensures q[top - |w|..top] == w && q[top..] == p[top..] && q[..low] == p[..low] && q[..lower] == p[..lower]
  {
  }

  /** What has to be typed to enter a listed line again. */
  function Retyped(l: Line): seq<byte> {
    Decimal(l.num) + [SPACE] + l.text + [NL]
  }

  /** The digits of a number are read as the number. */
  lemma {:induction false} DigitsRead(n: nat, s: seq<byte>, i: nat)
    requires n <= 0x1_0000_0000 && i + |DigitsOf(n)| <= |s| && s[i..i + |DigitsOf(n)|] == DigitsOf(n)
    ensures Digits(s, i, 0) == Digits(s, i + |DigitsOf(n)|, n)
    decreases n
  {
    if n > 0 {
      var e, c: byte := DigitsOf(n / 10), 48 + n % 10;
      assert DigitsOf(n) == e + [c];
      SplitLast(s, i, e, c);
      DigitsRead(n / 10, s, i);
    }
  }

  lemma SplitLast(s: seq<byte>, i: nat, w: seq<byte>, c: byte)
    requires i + |w| < |s| && s[i..i + |w| + 1] == w + [c]
    ensures s[i..i + |w|] == w && s[i + |w|] == c
  {
    assert s[i..i + |w|] == s[i..i + |w| + 1][..|w|];
    assert s[i + |w|] == s[i..i + |w| + 1][|w|];
  }

  /** Typing a stored line as LIST shows it, up to the newline, enters the same line. */
  lemma RetypedEntry(l: Line)
    requires Storable(l)
    ensures Typed(Retyped(l)) && Entry(Retyped(l)) == l && ListText(l) == Retyped(l) + [13]
  {
    var s, d := Retyped(l), DigitsOf(l.num);
    DigitsAreDigits(l.num);
    RetypedParts(s, d, l.text);
    RetypedNumber(l, s, d);
    RetypedText(l, s, |d|);
  }

  lemma RetypedText(l: Line, s: seq<byte>, n: nat)
    requires Storable(l) && Typed(s) && NumberOf(s) == (l.num, n) && n + 1 < |s|
    requires s[n] == SPACE && s[n + 1] == l.text[0] && s[n + 1..] == l.text + [NL]
    ensures Entry(s) == l
  {
    assert SkipBlanks(s, n + 1) == n + 1;
    assert TextStart(s) == n + 1;
    EntryParts(s);
    SameTail(Entry(s).text, l.text, [NL]);
  }

  lemma RetypedNumber(l: Line, s: seq<byte>, d: seq<byte>)
    requires Storable(l) && d == DigitsOf(l.num) && s == d + [SPACE] + l.text + [NL]
    requires s[0..|d|] == d && s[|d|] == SPACE
    ensures Typed(s) && NumberOf(s) == (l.num, |d|)
  {
    DigitsAreDigits(l.num);
    RetypedTyped(s, d, l.text);
    DigitsRead(l.num, s, 0);
    assert s[0] == d[0];
    assert SkipBlanks(s, 0) == 0;
  }

  lemma RetypedTyped(s: seq<byte>, d: seq<byte>, text: seq<byte>)
    requires s == d + [SPACE] + text + [NL] && NL !in text && forall i :: 0 <= i < |d| ==> d[i] != NL
    ensures Typed(s)
  {
  }

  lemma RetypedParts(s: seq<byte>, d: seq<byte>, text: seq<byte>)
    requires s == d + [SPACE] + text + [NL] && d != [] && text != []
    ensures s[0..|d|] == d && s[0] == d[0] && s[|d|] == SPACE && s[|d| + 1] == text[0] && s[|d| + 1..] == text + [NL]
    ensures s[|s| - 1] == NL && |s| == |d| + |text| + 2
  {
  }

  lemma {:induction false} DigitsAreDigits(n: nat)
    ensures n > 0 ==> |DigitsOf(n)| > 0
    ensures forall i :: 0 <= i < |DigitsOf(n)| ==> IsDigit(DigitsOf(n)[i])
  {
    if n > 0 {
      DigitsAreDigits(n / 10);
    }
  }

  lemma PrefixSlice(p: seq<byte>, q: seq<byte>, a: nat, b: nat)
    requires b <= a <= |p| == |q| && q[..a] == p[..a]
    ensures q[..b] == p[..b]
  {
    assert q[..b] == q[..a][..b];
  }

  lemma TailSlice(p: seq<byte>, q: seq<byte>, a: nat, b: nat, c: nat)
    requires b <= c && a + c <= |p| == |q| && p[a..] == q[a..]
    ensures p[a + b..a + c] == q[a + b..a + c]
  {
    assert p[a..][b..c] == p[a + b..a + c] && q[a..][b..c] == q[a + b..a + c];
  }

  /** The last `n` of the typed bytes are at their place in front of `end`. */
  function Landed(q: seq<byte>, typed: seq<byte>, end: nat, n: nat): (r: seq<byte>)
    requires n <= |typed| && n <= end <= |q|
    ensures |r| == |q|
  {
    if n == 0 then q else Landed(q, typed, end, n - 1)[end - n := typed[|typed| - n]]
  }

  lemma {:induction false} LandedBelow(q: seq<byte>, typed: seq<byte>, end: nat, n: nat, i: nat)
    requires n <= |typed| && n <= end <= |q| && i < end - n
    ensures Landed(q, typed, end, n)[i] == q[i]
  {
    if n > 0 {
      LandedBelow(q, typed, end, n - 1, i);
    }
  }

  lemma LandOne(q: seq<byte>, r: seq<byte>, typed: seq<byte>, at: nat, end: nat, n: nat)
    requires n < |typed| && at + |typed| < end <= |q| && q[at..at + |typed|] == typed && r == Landed(q, typed, end, n)
    ensures r[end - 1 - n := r[at + |typed| - 1 - n]] == Landed(q, typed, end, n + 1)
  {
    var k := |typed| - 1 - n;
    LandedBelow(q, typed, end, n, at + k);
    assert q[at + k] == q[at..at + |typed|][k];
  }

  lemma {:induction false} LandedParts(q: seq<byte>, typed: seq<byte>, end: nat, n: nat)
    requires n <= |typed| && n <= end <= |q|
    ensures Landed(q, typed, end, n)[end - n..end] == typed[|typed| - n..]
    ensures Landed(q, typed, end, n)[..end - n] == q[..end - n]
  {
    if n > 0 {
      LandedParts(q, typed, end, n - 1);
      var r, k := Landed(q, typed, end, n - 1), |typed| - n;
      assert r[end - n := typed[k]][end - n..end] == [typed[k]] + r[end - n + 1..end];
      assert typed[k..] == [typed[k]] + typed[k + 1..];
      assert r[end - n := typed[k]][..end - n] == r[..end - n + 1][..end - n] == q[..end - n + 1][..end - n];
    }
  }

  /** `n` bytes from `from` on are moved down to `start`. */
  function MovedDown(p: seq<byte>, start: nat, from: nat, n: nat): (r: seq<byte>)
    requires start <= from && from + n <= |p|
    ensures |r| == |p|
  {
    if n == 0 then p else MovedDown(p, start, from, n - 1)[start + n - 1 := p[from + n - 1]]
  }

  lemma {:induction false} MovedAbove(p: seq<byte>, start: nat, from: nat, n: nat, i: nat)
    requires start <= from && from + n <= |p| && start + n <= i < |p|
    ensures MovedDown(p, start, from, n)[i] == p[i]
  {
    if n > 0 {
      MovedAbove(p, start, from, n - 1, i);
    }
  }

  lemma {:induction false} MovedAt(p: seq<byte>, start: nat, from: nat, n: nat, i: nat)
    requires start <= from && from + n <= |p| && start <= i < start + n
    ensures MovedDown(p, start, from, n)[i] == p[i + (from - start)]
  {
    if i < start + n - 1 {
      MovedAt(p, start, from, n - 1, i);
    }
  }

  lemma {:induction false} MovedBelow(p: seq<byte>, start: nat, from: nat, n: nat, i: nat)
    requires start <= from && from + n <= |p| && i < start
    ensures MovedDown(p, start, from, n)[i] == p[i]
  {
    if n > 0 {
      MovedBelow(p, start, from, n - 1, i);
    }
  }

  lemma Closed(p: seq<byte>, q: seq<byte>, start: nat, from: nat, end: nat)
    requires start <= from <= end <= |p| && q == MovedDown(p, start, from, end - from)
    ensures q[..start] == p[..start] && q[start..start + end - from] == p[from..end] && q[end..] == p[end..]
  {
    var n := end - from;
    forall i {:trigger q[i]} | 0 <= i < start ensures q[i] == p[i] {
      MovedBelow(p, start, from, n, i);
    }
    forall i {:trigger q[i]} | start <= i < start + n ensures q[i] == p[i + (from - start)] {
      MovedAt(p, start, from, n, i);
    }
    forall i {:trigger q[i]} | end <= i < |q| ensures q[i] == p[i] {
      MovedAbove(p, start, from, n, i);
    }
  }

  /** A line as LIST shows it. */
  function ListText(l: Line): seq<byte> {
    Decimal(l.num) + [32] + l.text + [NL, 13]
  }

  /** What becomes of a typed line. */
  datatype Outcome = Direct | How | Stored

  lemma HeaderFirst(l: Line)
    ensures LittleEndian(l.num) + [LengthByte(l)] + (l.text + [NL]) == EncodeLine(l)
  {
  }

  /** A line pending at `tp` is to be inserted at `at` into the program that ends at `pe`. */
  datatype Edit = Edit(at: int, pe: int, tp: int) {
    predicate Fits(p: seq<byte>, d: int) {
      0 <= at <= pe <= tp && 0 <= d && tp + d <= |p|
    }

    /** The program after the first `d` bytes of the pending line have been inserted. */
    function Result(p: seq<byte>, d: int): seq<byte>
      requires Fits(p, d)
    {
      p[..at] + p[tp..tp + d] + p[at..pe]
    }
  }

  /** `r` is `q` after `n` bytes pending at `tp` have moved to `at`, and the bytes from there
      to `pe` have moved up. */
  ghost predicate Shuffled(q: seq<byte>, r: seq<byte>, at: int, pe: int, tp: int, n: int) {
    && |r| == |q| && 0 <= n && 0 <= at <= pe && pe + n <= tp && tp + n <= |q|
    && (forall i {:trigger r[i]} :: at <= i < at + n ==> r[i] == q[i - at + tp])
    && (forall i {:trigger r[i]} :: at + n <= i < pe + n ==> r[i] == q[i - n])
    && (forall i {:trigger r[i]} :: 0 <= i < at || pe + n <= i < |r| ==> r[i] == q[i])
  }

  lemma NothingInserted(p: seq<byte>, e: Edit)
    requires e.Fits(p, 0)
    ensures e.Result(p, 0) == p[..e.pe]
  {
  }

  /** The bytes move up first, and then those pending are copied. */
  lemma ShuffledInTwo(p: seq<byte>, q: seq<byte>, r: seq<byte>, at: int, pe: int, tp: int, n: int)
    requires |r| == |q| == |p| && 0 <= n && 0 <= at <= pe && pe + n <= tp && tp + n <= |p|
    requires forall i {:trigger q[i]} :: at + n <= i < pe + n ==> q[i] == p[i - n]
    requires forall i {:trigger q[i]} :: 0 <= i < at + n || pe + n <= i < |p| ==> q[i] == p[i]
    requires forall i {:trigger r[i]} :: at <= i < at + n ==> r[i] == q[i - at + tp]
    requires forall i {:trigger r[i]} :: 0 <= i < at || at + n <= i < |p| ==> r[i] == q[i]
    ensures Shuffled(p, r, at, pe, tp, n)
  {
  }

  lemma Grown(p: seq<byte>, q: seq<byte>, r: seq<byte>, e: Edit, d: int,
              at: int, pe: int, tp: int, n: int)
    requires e.Fits(p, d) && |q| == |p| && e == Edit(at - d, pe - d, tp - d)
    requires q[..pe] == e.Result(p, d) && q[tp..] == p[tp..]
    requires Shuffled(q, r, at, pe, tp, n)
    ensures e.Fits(p, d + n)
    ensures r[..pe + n] == e.Result(p, d + n) && r[tp + n..] == p[tp + n..]
  {
    PrefixBytes(q, pe, e.Result(p, d));
    SuffixBytes(q, p, tp);
    var w := e.Result(p, d + n);
    assert |w| == pe + n;
    forall i {:trigger w[i]} | 0 <= i < |w| ensures r[i] == w[i] {
      GrownAt(p, q, r, e, d, at, pe, tp, n, i);
    }
    assert r[..pe + n] == w;
    GrownTail(p, q, r, at, pe, tp, n);
  }

  lemma PrefixBytes(q: seq<byte>, n: int, w: seq<byte>)
    requires 0 <= n <= |q| && q[..n] == w
    ensures forall i {:trigger q[i]} :: 0 <= i < n ==> q[i] == w[i]
  {
    assert forall i {:trigger q[i]} :: 0 <= i < n ==> q[i] == q[..n][i];
  }

  lemma SuffixBytes(q: seq<byte>, p: seq<byte>, n: int)
    requires 0 <= n <= |q| == |p| && q[n..] == p[n..]
    ensures forall i {:trigger q[i]} :: n <= i < |q| ==> q[i] == p[i]
  {
    forall i {:trigger q[i]} | n <= i < |q| ensures q[i] == p[i] {
      assert q[n..][i - n] == p[n..][i - n];
    }
  }

  /** What is pending behind the bytes moved stays. */
  lemma GrownTail(p: seq<byte>, q: seq<byte>, r: seq<byte>, at: int, pe: int, tp: int, n: int)
    requires Shuffled(q, r, at, pe, tp, n) && |p| == |q|
    requires forall k {:trigger q[k]} :: tp <= k < |q| ==> q[k] == p[k]
    ensures r[tp + n..] == p[tp + n..]
  {
    forall k {:trigger r[k]} | tp + n <= k < |r| ensures r[k] == p[k] {
      assert r[k] == q[k];
    }
  }

  /** One byte of the result. */
  lemma GrownAt(p: seq<byte>, q: seq<byte>, r: seq<byte>, e: Edit, d: int,
                at: int, pe: int, tp: int, n: int, i: int)
    requires e.Fits(p, d) && |q| == |p| && e == Edit(at - d, pe - d, tp - d) && Shuffled(q, r, at, pe, tp, n)
    requires forall k {:trigger q[k]} :: 0 <= k < pe ==> q[k] == e.Result(p, d)[k]
    requires forall k {:trigger q[k]} :: tp <= k < |q| ==> q[k] == p[k]
    requires 0 <= i < pe + n
    ensures r[i] == e.Result(p, d + n)[i]
  {
    if at <= i < at + n {
      assert r[i] == q[i - at + tp];
    } else if at + n <= i {
      assert r[i] == q[i - n];
    }
  }

  /** The store `p[at..end]` begins with the line at the head of `ls`. */
  ghost predicate HoldsLine(p: seq<byte>, at: int, end: int, ls: Listing)
    requires ls.Then? && 0 <= at && at + HEADER < end <= |p|
  {
    var n := p[at + 4];
    && Word(p[at], p[at + 1], p[at + 2], p[at + 3]) == ls.line.num
    && HEADER < n && at + n <= end
    && p[at + HEADER..at + n - 1] == ls.line.text && p[at + n - 1] == NL
    && p[at + n..end] == Encode(ls.rest)
  }

  lemma LineAt(p: seq<byte>, at: int, end: int, ls: Listing)
    requires 0 <= at <= end <= |p| && Sound(ls) && p[at..end] == Encode(ls)
    ensures ls.End? <==> at == end
    ensures ls.Then? ==> at + HEADER < end && HoldsLine(p, at, end, ls)
  {
    if ls.Then? {
      FirstLine(ls);
      var e, n := p[at..end], |ls.line.text| + HEADER + 1;
      assert e == Encode(ls);
      SliceOf(p, at, end, HEADER, n - 1);
      SliceOf(p, at, end, n, end - at);
      assert e[0] == p[at] && e[1] == p[at + 1] && e[2] == p[at + 2] && e[3] == p[at + 3] && e[4] == p[at + 4];
      assert e[n - 1] == p[at + n - 1];
    }
  }

  lemma SliceOf(p: seq<byte>, at: int, end: int, i: int, j: int)
    requires 0 <= at <= end <= |p| && 0 <= i <= j <= end - at
    ensures p[at..end][i..j] == p[at + i..at + j]
  {
    var e := p[at..end];
    assert forall k {:trigger e[k]} :: i <= k < j ==> e[k] == p[at + k];
  }

  lemma BytesBelow(ls: Listing, n: nat, rest: Listing, w: seq<byte>)
    requires Sound(ls) && rest == From(ls, n) && w + Encode(rest) == Encode(ls)
    ensures w == Encode(Below(ls, n))
  {
    SplitSound(ls, n);
    WrittenAppend(Below(ls, n), rest, EncodeLine);
    SameTail(w, Encode(Below(ls, n)), Encode(rest));
  }

  lemma SameTail(a: seq<byte>, b: seq<byte>, t: seq<byte>)
    requires a + t == b + t
    ensures a == b
  {
    assert |a| == |b|;
    assert a == (a + t)[..|a|] && b == (b + t)[..|b|];
  }
}
