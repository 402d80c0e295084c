/** The listing client's command-line handling and table drawing: the
    shell-style wildcards of the last argument rewritten in place into
    SQL LIKE wildcards, the choice of that argument as the pattern, and
    the widths of the header, row and trailer lines of its tables. */
module MysqlShow {
  import opened Common

  const Nul: char := '\0'
  const SizeT: int := 0x1_0000_0000_0000_0000

  /* ---------------------------------------------------------------- */
  /* Wildcard rewriting of the last argument                           */
  /* ---------------------------------------------------------------- */

  /** The text of a C string: no NUL inside. */
  predicate IsCString(s: string)
  {
    forall k :: 0 <= k < |s| ==> s[k] != Nul
  }

  /** '*' becomes '%' and '?' becomes '_'; every other character stays. */
  function LikeChar(c: char): char
  {
    if c == '*' then '%' else if c == '?' then '_' else c
  }

  /** The argument after the rewrite: wildcards translated, a backslash
      dropped and the character after it kept as it is (a backslash at
      the very end has nothing to escape and stays). */
  function Rewrite(s: string): (r: string)
    ensures |r| <= |s|
    decreases |s|
  {
    if s == [] then []
    else if s[0] == '\\' then (if |s| >= 2 then [s[1]] + Rewrite(s[2..]) else s)
    else [LikeChar(s[0])] + Rewrite(s[1..])
  }

  predicate IsWildcard(c: char)
  {
    c == '*' || c == '?' || c == '%' || c == '_'
  }

  /** Whether the argument holds a wildcard not escaped by a backslash. */
  predicate UsesWildcards(s: string)
    decreases |s|
  {
    s != [] &&
    if s[0] == '\\' then |s| >= 2 && UsesWildcards(s[2..])
    else IsWildcard(s[0]) || UsesWildcards(s[1..])
  }

  predicate NeedsEscape(c: char)
  {
    IsWildcard(c) || c == '\\'
  }

  /** A name with every wildcard and backslash escaped. */
  function Escape(t: string): string
  {
    if t == [] then [] else (if NeedsEscape(t[0]) then ['\\', t[0]] else [t[0]]) + Escape(t[1..])
  }

  /** An escaped name uses no wildcards and the rewrite gives the name
      back, so it is looked up as written. */
  lemma {:induction false} EscapeRoundTrip(t: string)
    ensures Rewrite(Escape(t)) == t && !UsesWildcards(Escape(t))
    decreases |t|
  {
    if t != [] {
      var e := Escape(t);
      EscapeRoundTrip(t[1..]);
      if NeedsEscape(t[0]) {
        assert e[0] == '\\' && e[1] == t[0] && e[2..] == Escape(t[1..]);
      } else {
        assert e[0] == t[0] && e[1..] == Escape(t[1..]);
      }
    }
  }

  /** Where the rewrite loop as written stops reading the memory `mem`
      that holds the argument, its NUL and whatever follows: a backslash
      always skips the next character, even the terminating NUL. None
      when it runs off `mem`. */
  function ScanEndAsWritten(mem: seq<char>, pos: nat): Option<nat>
    decreases |mem| - pos
  {
    if pos >= |mem| then None
    else if mem[pos] == Nul then Some(pos)
    else if mem[pos] == '\\' then ScanEndAsWritten(mem, pos + 2)
    else ScanEndAsWritten(mem, pos + 1)
  }

  /** Where the rewrite loop stops when a backslash escapes the next
      character only if that is not the NUL. */
  function ScanEnd(mem: seq<char>, pos: nat): Option<nat>
    decreases |mem| - pos
  {
    if pos >= |mem| then None
    else if mem[pos] == Nul then Some(pos)
    else if mem[pos] == '\\' && pos + 1 < |mem| && mem[pos + 1] != Nul then ScanEnd(mem, pos + 2)
    else ScanEnd(mem, pos + 1)
  }

  /** The argument "a\" is followed by its NUL and the next string "b":
      as written the scan skips the NUL and reads on into "b". */
  lemma TrailingBackslashReadsOn()
    ensures ScanEndAsWritten(['a', '\\', Nul, 'b', Nul], 0) == Some(4)
    ensures ScanEnd(['a', '\\', Nul, 'b', Nul], 0) == Some(2)
  {
    var mem := ['a', '\\', Nul, 'b', Nul];
    assert ScanEndAsWritten(mem, 3) == Some(4);
    assert ScanEnd(mem, 2) == Some(2);
  }

  lemma {:induction false} ScanEndFrom(s: string, rest: seq<char>, pos: nat)
    requires IsCString(s) && pos <= |s|
    ensures ScanEnd(s + [Nul] + rest, pos) == Some(|s|)
    decreases |s| - pos
  {
    var mem := s + [Nul] + rest;
    assert mem[|s|] == Nul;
    if pos < |s| {
      assert mem[pos] == s[pos];
      if s[pos] == '\\' && pos + 1 < |s| {
        assert mem[pos + 1] == s[pos + 1];
        ScanEndFrom(s, rest, pos + 2);
      } else {
        ScanEndFrom(s, rest, pos + 1);
      }
    }
  }

  /** However the argument ends, the scan stops at its own NUL. */
  lemma ScanEndAtTerminator(s: string, rest: seq<char>)
    requires IsCString(s)
    ensures ScanEnd(s + [Nul] + rest, 0) == Some(|s|)
  {
    ScanEndFrom(s, rest, 0);
  }

  /** Where one turn of the loop reads the character it copies: past a
      backslash unless the NUL follows it. */
  function ReadAt(a: seq<char>, pos: nat): nat
    requires pos + 1 < |a|
  {
    if a[pos] == '\\' && a[pos + 1] != Nul then pos + 1 else pos
  }

  /** The buffer after one turn of the loop. */
  function Turn(a: seq<char>, pos: nat, to: nat): (b: seq<char>)
    requires to <= pos && pos + 1 < |a|
    ensures |b| == |a|
  {
    var translated := if a[pos] == '*' || a[pos] == '?' then a[pos := LikeChar(a[pos])] else a;
    translated[to := translated[ReadAt(a, pos)]]
  }

  /** The state of the loop over the buffer `a` (`a0` before it ran):
      the first `to` characters hold the rewrite of what was read before
      `pos`, nothing from `pos` on has been touched, and `uses` tells
      whether a wildcard was seen. */
  ghost predicate Scanned(a: seq<char>, a0: seq<char>, s: string, pos: nat, to: nat, done: string, uses: bool)
  {
    |a| == |a0| && |s| < |a0| && s == a0[..|s|] && a0[|s|] == Nul && IsCString(s) &&
    to <= pos <= |s| && a[pos..] == a0[pos..] && a[..to] == done &&
    done + Rewrite(s[pos..]) == Rewrite(s) &&
    (uses || UsesWildcards(s[pos..])) == UsesWildcards(s)
  }

  lemma ScannedStart(a: seq<char>, s: string)
    requires |s| < |a| && s == a[..|s|] && a[|s|] == Nul && IsCString(s)
    ensures Scanned(a, a, s, 0, 0, [], false)
  {
    assert s[0..] == s;
  }

  /** A turn reads a character before the NUL. */
  lemma ScannedReads(a: seq<char>, a0: seq<char>, s: string, pos: nat, to: nat, done: string, uses: bool)
    requires Scanned(a, a0, s, pos, to, done, uses) && a[pos] != Nul
    ensures pos < |s| && pos + 1 < |a|
  {
    assert a[pos] == a[pos..][0] == a0[pos];
  }

  /** One turn keeps the state, one character further on. */
  lemma ScannedStep(a: seq<char>, a0: seq<char>, s: string, pos: nat, to: nat, done: string, uses: bool)
    requires Scanned(a, a0, s, pos, to, done, uses) && a[pos] != Nul && pos + 1 < |a|
    ensures var b := Turn(a, pos, to);
            Scanned(b, a0, s, ReadAt(a, pos) + 1, to + 1, done + [b[to]], uses || IsWildcard(a[pos]))
  {
    ScannedReads(a, a0, s, pos, to, done, uses);
    var b := Turn(a, pos, to);
    var read := ReadAt(a, pos);
    assert a[pos] == a[pos..][0] == a0[pos] == s[pos];
    assert a[pos + 1] == a[pos..][1] == a0[pos + 1];
    assert pos + 1 < |s| ==> a0[pos + 1] == s[pos + 1];
    TurnWrites(a, pos, to);
    RewriteTurn(s, pos, read, b[to]);
    Associative(done, [b[to]], Rewrite(s[read + 1..]));
    WildcardsTurn(s, pos, read);
    assert a[read + 1..] == a[pos..][read + 1 - pos..];
  }

  /** What one turn writes: the copied character at `to`, nothing
      before it and nothing after the read position. */
  lemma TurnWrites(a: seq<char>, pos: nat, to: nat)
    requires to <= pos && pos + 1 < |a|
    ensures var b := Turn(a, pos, to);
            var read := ReadAt(a, pos);
            b[to] == (if read == pos then LikeChar(a[pos]) else a[pos + 1]) &&
            b[..to + 1] == a[..to] + [b[to]] && b[read + 1..] == a[read + 1..]
  {
  }

  /** The rewrite of the rest starts with the character one turn copies. */
  lemma RewriteTurn(s: string, pos: nat, read: nat, out: char)
    requires pos < |s|
    requires read == (if s[pos] == '\\' && pos + 1 < |s| then pos + 1 else pos)
    requires out == (if read == pos then LikeChar(s[pos]) else s[pos + 1])
    ensures Rewrite(s[pos..]) == [out] + Rewrite(s[read + 1..])
  {
    if read == pos + 1 {
      RewriteEscaped(s, pos);
    } else if s[pos] == '\\' {
      TrailingEscape(s, pos);
    } else {
      RewritePlain(s, pos);
    }
  }

  /** A turn sees a wildcard exactly when the character it reads is one. */
  lemma WildcardsTurn(s: string, pos: nat, read: nat)
    requires pos < |s|
    requires read == (if s[pos] == '\\' && pos + 1 < |s| then pos + 1 else pos)
    ensures UsesWildcards(s[pos..]) == (IsWildcard(s[pos]) || UsesWildcards(s[read + 1..]))
  {
    if read == pos + 1 {
      RewriteEscaped(s, pos);
    } else if s[pos] == '\\' {
      TrailingEscape(s, pos);
    } else {
      RewritePlain(s, pos);
    }
  }

  lemma Associative(x: string, y: string, z: string)
    ensures (x + y) + z == x + (y + z)
  {
  }

  /** At the NUL the whole argument has been rewritten. */
  lemma ScannedDone(a: seq<char>, a0: seq<char>, s: string, pos: nat, to: nat, done: string, uses: bool)
    requires Scanned(a, a0, s, pos, to, done, uses) && a[pos] == Nul
    ensures pos == |s| && done == Rewrite(s) && uses == UsesWildcards(s)
    ensures var b := a[to := a[pos]]; b[..to] == Rewrite(s) && b[to] == Nul && b[|s| + 1..] == a0[|s| + 1..]
  {
    assert s[pos..] == [];
    var b := a[to := a[pos]];
    assert b[|s| + 1..] == a[|s| + 1..] == a[pos..][1..];
  }

  /** The loop of main over the last argument, `len` characters and a
      NUL at the start of `arg`: rewrites it in place (the write position
      never passes the read position) and tells whether it uses
      wildcards. */
  method RewriteLastArgument(arg: array<char>, len: nat) returns (usesWildcards: bool, newLen: nat)
    requires len < arg.Length && arg[len] == Nul && IsCString(arg[..len])
    modifies arg
    ensures usesWildcards == UsesWildcards(old(arg[..len]))
    ensures newLen <= len && arg[..newLen] == Rewrite(old(arg[..len])) && arg[newLen] == Nul
    ensures arg[len + 1..] == old(arg[len + 1..])
  {
    ghost var s := arg[..len];
    ScannedStart(arg[..], s);
    var pos, to := 0, 0;
    usesWildcards := false;
    ghost var done: string := [];
    while arg[pos] != Nul
      invariant Scanned(arg[..], old(arg[..]), s, pos, to, done, usesWildcards)
      decreases len - pos
    {
      ghost var a, pos0 := arg[..], pos;
      ScannedReads(a, old(arg[..]), s, pos, to, done, usesWildcards);
      ScannedStep(a, old(arg[..]), s, pos, to, done, usesWildcards);
      var wild;
      pos, wild := CopyTurn(arg, pos, to);
      ghost var b := arg[..];
      assert b == Turn(a, pos0, to) && pos == ReadAt(a, pos0) && wild == IsWildcard(a[pos0]);
      usesWildcards := usesWildcards || wild;
      done := done + [b[to]];
      pos, to := pos + 1, to + 1;
    }
    ScannedDone(arg[..], old(arg[..]), s, pos, to, done, usesWildcards);
    arg[to] := arg[pos];
    newLen := to;
  }

  /** One turn of the rewrite loop at read position `pos` and write
      position `to`: the switch on the character ('*' and '?' translated
      in place, any wildcard noted, a backslash skipped unless the NUL
      follows), then the character at the read position copied to the
      write position. */
  method CopyTurn(arg: array<char>, pos: nat, to: nat) returns (read: nat, wild: bool)
    requires to <= pos && pos + 1 < arg.Length
    modifies arg
    ensures read == ReadAt(old(arg[..]), pos) && wild == IsWildcard(old(arg[..])[pos])
    ensures arg[..] == Turn(old(arg[..]), pos, to)
  {
    var c := arg[pos];
    if c == '*' || c == '?' {
      arg[pos] := LikeChar(c);
    }
    wild := IsWildcard(c);
    read := pos;
    if c == '\\' && arg[pos + 1] != Nul {
      read := pos + 1;
    }
    arg[to] := arg[read];
  }

  /** A backslash at the very end of the argument stays. */
  lemma TrailingEscape(s: string, pos: nat)
    requires pos < |s| && s[pos] == '\\' && pos + 1 == |s|
    ensures Rewrite(s[pos..]) == ['\\'] + Rewrite(s[pos + 1..])
    ensures UsesWildcards(s[pos..]) == UsesWildcards(s[pos + 1..])
  {
    assert s[pos..] == ['\\'];
    assert s[pos + 1..] == [];
  }

  /** A backslash and the character it escapes. */
  lemma RewriteEscaped(s: string, pos: nat)
    requires pos + 1 < |s| && s[pos] == '\\'
    ensures Rewrite(s[pos..]) == [s[pos + 1]] + Rewrite(s[pos + 2..])
    ensures UsesWildcards(s[pos..]) == UsesWildcards(s[pos + 2..])
  {
    assert s[pos..][2..] == s[pos + 2..];
  }

  /** Any other character. */
  lemma RewritePlain(s: string, pos: nat)
    requires pos < |s| && s[pos] != '\\'
    ensures Rewrite(s[pos..]) == [LikeChar(s[pos])] + Rewrite(s[pos + 1..])
    ensures UsesWildcards(s[pos..]) == (IsWildcard(s[pos]) || UsesWildcards(s[pos + 1..]))
  {
    assert s[pos..][1..] == s[pos + 1..];
  }

  /** The arguments left after main takes out the pattern, or the
      "Too many arguments" exit. */
  datatype Selection = TooManyArguments | Selected(args: seq<string>, wild: Option<string>)

  /** main's choice of the pattern: the last argument when it uses
      wildcards or when it is the third; more than two arguments left
      is an error. */
  function SelectArguments(args: seq<string>, usesWildcards: bool): (r: Selection)
    requires usesWildcards ==> args != []
    ensures var takesLast := usesWildcards || |args| == 3;
            var left := if takesLast then |args| - 1 else |args|;
            (r.TooManyArguments? <==> left > 2) &&
            (r.Selected? ==> r.args == args[..left] && (r.wild.Some? <==> takesLast) &&
                             (takesLast ==> r.wild.value == args[|args| - 1]))
  {
    var (left, wild) :=
      if usesWildcards || |args| == 3 then (args[..|args| - 1], Some(args[|args| - 1])) else (args, None);
    if |left| > 2 then TooManyArguments else Selected(left, wild)
  }

  /* ---------------------------------------------------------------- */
  /* Table drawing                                                     */
  /* ---------------------------------------------------------------- */

  /** A column: its title or value, and its width. */
  datatype Column = Column(text: string, length: nat)

  function Repeat(c: char, n: nat): (s: string)
    ensures |s| == n && forall k :: 0 <= k < n ==> s[k] == c
  {
    if n == 0 then "" else Repeat(c, n - 1) + [c]
  }

  function Lengths(cols: seq<Column>): (ls: seq<nat>)
    ensures |ls| == |cols| && forall k :: 0 <= k < |cols| ==> ls[k] == cols[k].length
  {
    seq(|cols|, k requires 0 <= k < |cols| => cols[k].length)
  }

  /** The width of a table line over columns of these widths: a border
      character and, per column, the width plus two and a separator. */
  function LineWidth(ls: seq<nat>): nat
  {
    if ls == [] then 1 else LineWidth(ls[..|ls| - 1]) + ls[|ls| - 1] + 3
  }

  /** The cells of a border line: length + 2 dashes and a '+' each. */
  function BorderCells(ls: seq<nat>): string
  {
    if ls == [] then "" else BorderCells(ls[..|ls| - 1]) + Repeat('-', ls[|ls| - 1] + 2) + "+"
  }

  function Border(ls: seq<nat>): string
  {
    "+" + BorderCells(ls)
  }

  /** The part of a title the header line shows: a title longer than
      the column is cut to length + 1 characters. */
  function Shown(name: string, length: nat): (s: string)
    ensures |s| == if |name| > length then length + 1 else |name|
  {
    if |name| > length then name[..length + 1] else name
  }

  /** The spaces before a title. */
  function PreSpace(name: string, length: nat): (n: nat)
    ensures n <= length + 2 - |Shown(name, length)|
  {
    if |name| > length then 1 else (length - |name|) / 2 + 1
  }

  /** A title centred in its column as the header line draws it. */
  function HeaderCell(name: string, length: nat): (cell: string)
    ensures |cell| == length + 3
  {
    var shown := Shown(name, length);
    var pre := PreSpace(name, length);
    Spaces(pre) + shown + Spaces(length + 2 - |shown| - pre) + "|"
  }

  /** A title that fits is centred, the odd space going to the right;
      a longer one is cut to length + 1 characters after one space. */
  lemma HeaderCellCentred(name: string, length: nat)
    ensures var cell := HeaderCell(name, length);
            cell[length + 2] == '|' &&
            (|name| <= length ==>
               exists pre: nat, post: nat {:trigger Spaces(pre), Spaces(post)} ::
                 1 <= pre <= post <= pre + 1 && cell == Spaces(pre) + name + Spaces(post) + "|") &&
            (|name| > length ==> cell == " " + name[..length + 1] + "|")
  {
    if |name| <= length {
      var pre := (length - |name|) / 2 + 1;
      var post := length + 2 - |name| - pre;
      assert HeaderCell(name, length) == Spaces(pre) + name + Spaces(post) + "|";
    }
  }

  /** The header cell as written, its sizes in size_t: a title longer
      than the column makes `length - str_length` wrap. */
  function HeaderCellAsWritten(name: string, length: nat): string
    requires length + 2 < SizeT
  {
    var strLength := if |name| > length then length + 1 else |name|;
    var preSpace := ((length - strLength) % SizeT) / 2 + 1;
    var post := (length + 2 - strLength - preSpace) % SizeT;
    Spaces(preSpace) + name[..strLength] + Spaces(post) + "|"
  }

  /** A title one character longer than its column gets 2^63 spaces
      before it and 2^63 + 1 after it as written. */
  lemma HeaderCellAsWrittenWraps(name: string, length: nat)
    requires length + 2 < SizeT && |name| > length
    ensures |HeaderCellAsWritten(name, length)| == SizeT + length + 3
    ensures |HeaderCell(name, length)| == length + 3
  {
  }

  /** The two agree whenever the title fits. */
  lemma HeaderCellAgrees(name: string, length: nat)
    requires length + 2 < SizeT && |name| <= length
    ensures HeaderCellAsWritten(name, length) == HeaderCell(name, length)
  {
    var pre := (length - |name|) / 2 + 1;
    assert (length - |name|) % SizeT == length - |name|;
    assert (length + 2 - |name| - pre) % SizeT == length + 2 - |name| - pre;
    assert name[..|name|] == name;
  }

  function HeaderCells(cols: seq<Column>): string
  {
    if cols == [] then ""
    else HeaderCells(cols[..|cols| - 1]) + HeaderCell(cols[|cols| - 1].text, cols[|cols| - 1].length)
  }

  /** A value cell of print_row: "| ", the value, and padding to
      length + 1 characters when it fits. */
  function RowCell(c: Column): string
  {
    "| " + LeftJustify(c.text, c.length + 1)
  }

  function RowCells(cols: seq<Column>): string
  {
    if cols == [] then "" else RowCells(cols[..|cols| - 1]) + RowCell(cols[|cols| - 1])
  }

  predicate AllFit(cols: seq<Column>)
  {
    forall k :: 0 <= k < |cols| ==> |cols[k].text| <= cols[k].length + 1
  }

  /** The lengths of the first columns. */
  lemma LengthsPrefix(cols: seq<Column>, i: nat)
    requires i < |cols|
    ensures Lengths(cols[..i + 1]) == Lengths(cols[..i]) + [cols[i].length]
    ensures Lengths(cols)[..i + 1] == Lengths(cols)[..i] + [cols[i].length]
  {
  }

  /** Border, header and row lines of the same columns are equally wide
      (rows when every value fits its column). */
  lemma {:induction false} LinesAlign(cols: seq<Column>)
    ensures |Border(Lengths(cols))| == LineWidth(Lengths(cols))
    ensures |"|" + HeaderCells(cols)| == LineWidth(Lengths(cols))
    ensures AllFit(cols) ==> |RowCells(cols) + "|"| == LineWidth(Lengths(cols))
    decreases |cols|
  {
    if cols != [] {
      var n := |cols| - 1;
      var front := cols[..n];
      LinesAlign(front);
      LengthsPrefix(cols, n);
      assert cols[..n + 1] == cols;
      assert Lengths(cols)[..n] == Lengths(front);
      if AllFit(cols) {
        assert AllFit(front);
        assert |cols[n].text| <= cols[n].length + 1;
      }
    }
  }

  lemma HeaderCellsSnoc(cols: seq<Column>, i: nat)
    requires i < |cols|
    ensures HeaderCells(cols[..i + 1]) == HeaderCells(cols[..i]) + HeaderCell(cols[i].text, cols[i].length)
  {
    assert cols[..i + 1][..i] == cols[..i];
  }

  /** The padding print_row writes after a value. */
  lemma RowCellsSnoc(cols: seq<Column>, i: nat)
    requires i < |cols|
    ensures var c := cols[i];
            RowCells(cols[..i + 1]) ==
            RowCells(cols[..i]) + ("| " + c.text + Spaces(if |c.text| <= c.length then c.length + 1 - |c.text| else 0))
  {
    assert cols[..i + 1][..i] == cols[..i];
    var c := cols[i];
    var pad := Spaces(if |c.text| <= c.length then c.length + 1 - |c.text| else 0);
    assert LeftJustify(c.text, c.length + 1) == c.text + pad;
  }

  /** print_header: the top border, the centred titles and the bottom
      border. */
  method PrintHeader(cols: seq<Column>) returns (out: string)
    requires cols != []
    ensures out == Border(Lengths(cols)) + "\n" + "|" + HeaderCells(cols) + "\n" + Border(Lengths(cols)) + "\n"
  {
    var border := DrawBorder(Lengths(cols));
    var line := DrawTitles(cols);
    out := border + "\n" + line + "\n" + border + "\n";
  }

  /** The title loop of print_header. */
  method DrawTitles(cols: seq<Column>) returns (line: string)
    ensures line == "|" + HeaderCells(cols)
  {
    var cells := "";
    var i: nat := 0;
    while i < |cols|
      invariant i <= |cols|
      invariant cells == HeaderCells(cols[..i])
    {
      HeaderCellsSnoc(cols, i);
      cells := cells + HeaderCell(cols[i].text, cols[i].length);
      i := i + 1;
    }
    assert cols[..|cols|] == cols;
    line := "|" + cells;
  }

  /** The border loop of print_header and print_trailer. */
  method DrawBorder(ls: seq<nat>) returns (line: string)
    ensures line == Border(ls)
  {
    var cells := "";
    var i: nat := 0;
    while i < |ls|
      invariant i <= |ls|
      invariant cells == BorderCells(ls[..i])
    {
      assert ls[..i + 1][..i] == ls[..i];
      cells := cells + Repeat('-', ls[i] + 2) + "+";
      i := i + 1;
    }
    assert ls[..|ls|] == ls;
    line := "+" + cells;
  }

  /** print_row: the value cells and the closing '|'. */
  method PrintRow(cols: seq<Column>) returns (out: string)
    requires cols != []
    ensures out == RowCells(cols) + "|\n"
  {
    out := "";
    var i := 0;
    while i < |cols|
      invariant 0 <= i <= |cols|
      invariant out == RowCells(cols[..i])
    {
      var fieldLength := |cols[i].text|;
      var cell := "| " + cols[i].text + Spaces(if fieldLength <= cols[i].length then cols[i].length + 1 - fieldLength else 0);
      assert out + cell == RowCells(cols[..i + 1]) by {
        RowCellsSnoc(cols, i);
      }
      out := out + cell;
      i := i + 1;
    }
    assert cols[..|cols|] == cols;
    out := out + "|\n";
  }

  /** The widths print_trailer reads: the first, then the rest up to
      the terminating 0. */
  function UntilZero(ls: seq<nat>): (r: seq<nat>)
    ensures |r| <= |ls| && r == ls[..|r|]
    ensures forall k :: 0 <= k < |r| ==> r[k] != 0
    ensures |r| < |ls| ==> ls[|r|] == 0
  {
    if ls == [] || ls[0] == 0 then [] else [ls[0]] + UntilZero(ls[1..])
  }

  /** print_trailer: a border over the first width and the widths after
      it up to the terminating 0. */
  method PrintTrailer(headLength: nat, rest: seq<nat>) returns (out: string)
    requires exists k :: 0 <= k < |rest| && rest[k] == 0
    ensures out == Border([headLength] + UntilZero(rest)) + "\n"
  {
    var line := DrawBorder([headLength] + UntilZero(rest));
    out := line + "\n";
  }
}
