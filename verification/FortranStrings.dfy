/** src/mpif_strings.c: strings that are padded with blanks on the Fortran side and ended by a NUL on the C side. */
module FortranStrings {

  const NUL := '\0'

  function Blanks(n: nat): seq<char> {
    seq(n, _ => ' ')
  }

  ghost predicate IsBlank(s: seq<char>) {
    forall i :: 0 <= i < |s| ==> s[i] == ' '
  }

  predicate EndsBlank(s: seq<char>) {
    s != [] && s[|s| - 1] == ' '
  }

  predicate BeginsBlank(s: seq<char>) {
    s != [] && s[0] == ' '
  }

  // ----- lengths

  ghost predicate IsTrimmedLength(s: seq<char>, n: nat) {
    n <= |s| && IsBlank(s[n..]) && !EndsBlank(s[..n])
  }

  lemma TrimmedLengthIsUnique(s: seq<char>, m: nat, n: nat)
    requires IsTrimmedLength(s, m) && IsTrimmedLength(s, n)
    ensures m == n
  {
  }

  method FStrLen(str: seq<char>) returns (n: nat)
    ensures IsTrimmedLength(str, n)
  {
    n := |str|;
    while n > 0
      invariant n <= |str| && IsBlank(str[n..])
    {
      if str[n - 1] != ' ' {
        return n;
      }
      assert str[n - 1..] == [' '] + str[n..];
      n := n - 1;
    }
  }

  /** The string without its trailing blanks. */
  function TrimRight(s: seq<char>): seq<char> {
    if EndsBlank(s) then TrimRight(s[..|s| - 1]) else s
  }

  lemma {:induction false} TrimRightIs(s: seq<char>)
    ensures TrimRight(s) <= s && IsTrimmedLength(s, |TrimRight(s)|)
    ensures s == TrimRight(s) + Blanks(|s| - |TrimRight(s)|)
  {
    if EndsBlank(s) {
      var init := s[..|s| - 1];
      TrimRightIs(init);
      assert s == init + [' '];
      assert s[|TrimRight(s)|..] == init[|TrimRight(s)|..] + [' '];
      assert Blanks(|s| - |TrimRight(s)|) == Blanks(|init| - |TrimRight(s)|) + [' '];
    } else {
      assert s[..|s|] == s;
    }
  }

  lemma TrimRightFromLength(s: seq<char>, n: nat)
    requires IsTrimmedLength(s, n)
    ensures TrimRight(s) == s[..n]
  {
    TrimRightIs(s);
    TrimmedLengthIsUnique(s, n, |TrimRight(s)|);
  }

  function TrimLeft(s: seq<char>): seq<char> {
    if BeginsBlank(s) then TrimLeft(s[1..]) else s
  }

  /** The string without blanks at either end. */
  function Core(s: seq<char>): seq<char> {
    TrimLeft(TrimRight(s))
  }

  lemma {:induction false} TrimLeftBlanks(n: nat, s: seq<char>)
    requires !BeginsBlank(s)
    ensures TrimLeft(Blanks(n) + s) == s
  {
    if n == 0 {
      assert Blanks(0) + s == s;
    } else {
      assert (Blanks(n) + s)[1..] == Blanks(n - 1) + s;
      TrimLeftBlanks(n - 1, s);
    }
  }

  lemma OneMoreBlank(n: nat, s: seq<char>)
    ensures [' '] + (Blanks(n) + s) == Blanks(n + 1) + s
  {
  }

  lemma {:induction false} TrimLeftIs(s: seq<char>)
    ensures !BeginsBlank(TrimLeft(s)) && |TrimLeft(s)| <= |s|
    ensures s == Blanks(|s| - |TrimLeft(s)|) + TrimLeft(s)
  {
    if BeginsBlank(s) {
      var rest := s[1..];
      TrimLeftIs(rest);
      assert s == [' '] + rest;
      OneMoreBlank(|rest| - |TrimLeft(rest)|, TrimLeft(rest));
    } else {
      assert Blanks(0) + s == s;
    }
  }

  ghost predicate Delimits(s: seq<char>, left: nat, core: seq<char>, right: nat) {
    s == Blanks(left) + core + Blanks(right) && !BeginsBlank(core) && !EndsBlank(core)
  }

  lemma TrimRightBlanks(s: seq<char>, n: nat)
    ensures TrimRight(s + Blanks(n)) == TrimRight(s)
  {
    TrimRightIs(s);
    var t := TrimRight(s);
    assert s + Blanks(n) == t + Blanks(|s| - |t| + n);
    assert (s + Blanks(n))[..|t|] == t && s[..|t|] == t;
    assert (s + Blanks(n))[|t|..] == Blanks(|s| - |t| + n);
    TrimRightFromLength(s + Blanks(n), |t|);
  }

  lemma CoreDelimits(s: seq<char>)
    ensures |Core(s)| <= |TrimRight(s)| <= |s|
    ensures Delimits(s, |TrimRight(s)| - |Core(s)|, Core(s), |s| - |TrimRight(s)|)
  {
    var t := TrimRight(s);
    TrimRightIs(s);
    TrimLeftIs(t);
    assert s[..|t|] == t;
    if Core(s) != [] {
      assert Core(s)[|Core(s)| - 1] == t[|t| - 1];
    }
  }

  lemma CoreIsUnique(s: seq<char>, left: nat, core: seq<char>, right: nat)
    requires Delimits(s, left, core, right)
    ensures core == Core(s)
  {
    TrimRightBlanks(Blanks(left) + core, right);
    if core == [] {
      assert Blanks(left) + core == [] + Blanks(left);
      TrimRightBlanks([], left);
    } else {
      assert (Blanks(left) + core)[left + |core| - 1] == core[|core| - 1];
      TrimLeftBlanks(left, core);
    }
  }

  /** The core is the one string with no blank at either end that the string is, between blanks. */
  lemma CoreIsDelimited(s: seq<char>)
    ensures exists left, right :: Delimits(s, left, Core(s), right)
    ensures forall left, core, right :: Delimits(s, left, core, right) ==> core == Core(s)
  {
    CoreDelimits(s);
    forall left: nat, core, right: nat | Delimits(s, left, core, right)
      ensures core == Core(s)
    {
      CoreIsUnique(s, left, core, right);
    }
  }

  // ----- copies

  method StrdupF2c(str: seq<char>) returns (res: array<char>)
    ensures fresh(res) && res[..] == TrimRight(str) + [NUL]
  {
    var len := FStrLen(str);
    TrimRightFromLength(str, len);
    res := new char[len + 1];
    forall i | 0 <= i < len {
      res[i] := str[i];
    }
    res[len] := NUL;
  }

  method StrdupF2cTrim(str: seq<char>) returns (res: array<char>)
    ensures fresh(res) && res[..] == Core(str) + [NUL]
  {
    var end := FStrLen(str);
    TrimRightFromLength(str, end);
    var begin := 0;
    while begin < end && str[begin] == ' '
      invariant begin <= end && IsBlank(str[..begin])
    {
      begin := begin + 1;
    }
    assert str[..end] == Blanks(begin) + str[begin..end];
    TrimLeftBlanks(begin, str[begin..end]);
    var len := end - begin;
    res := new char[len + 1];
    forall i | 0 <= i < len {
      res[i] := str[begin + i];
    }
    res[len] := NUL;
    assert res[..len] == str[begin..end];
  }

  /** Fitted to a Fortran string of length n: cut, or padded with blanks. */
  function Pad(s: seq<char>, n: nat): seq<char> {
    if |s| >= n then s[..n] else s + Blanks(n - |s|)
  }

  /** Character by character. */
  lemma PadIs(s: seq<char>, n: nat)
    ensures |Pad(s, n)| == n && forall i :: 0 <= i < n ==> Pad(s, n)[i] == if i < |s| then s[i] else ' '
  {
  }

  method StrcpyC2f(dest: array<char>, src: seq<char>, srcLength: nat)
    requires srcLength <= |src|
    modifies dest
    ensures dest[..] == Pad(src[..srcLength], dest.Length)
  {
    if srcLength >= dest.Length {
      forall i | 0 <= i < dest.Length {
        dest[i] := src[i];
      }
    } else {
      forall i | 0 <= i < srcLength {
        dest[i] := src[i];
      }
      forall i | srcLength <= i < dest.Length {
        dest[i] := ' ';
      }
    }
  }

  /** The text of a C string: what strlen counts. */
  function CText(c: seq<char>): seq<char> {
    if c == [] || c[0] == NUL then [] else [c[0]] + CText(c[1..])
  }

  lemma {:induction false} CTextOf(s: seq<char>)
    ensures CText(s + [NUL]) <= s
    ensures CText(s + [NUL]) == s <==> NUL !in s
  {
    if s != [] {
      assert (s + [NUL])[1..] == s[1..] + [NUL];
      assert s == [s[0]] + s[1..];
      CTextOf(s[1..]);
    }
  }

  lemma PadTrimmed(s: seq<char>)
    ensures Pad(TrimRight(s), |s|) == s
  {
    TrimRightIs(s);
    var t := TrimRight(s);
    assert |t| == |s| ==> t == s;
  }

  /** Too little text is padded where the string has its last character. */
  lemma PadLess(s: seq<char>, text: seq<char>)
    requires |text| < |TrimRight(s)|
    ensures Pad(text, |s|) != s
  {
  }

  lemma TrimmedKeepsNul(s: seq<char>)
    ensures NUL in TrimRight(s) <==> NUL in s
  {
  }

  /** There and back: a Fortran string comes back whole from C exactly if it contains no NUL. */
  lemma FortranRoundTrip(s: seq<char>)
    ensures Pad(TrimRight(s), |s|) == s
    ensures Pad(CText(TrimRight(s) + [NUL]), |s|) == s <==> NUL !in s
  {
    var t := TrimRight(s);
    PadTrimmed(s);
    CTextOf(t);
    TrimmedKeepsNul(s);
    if NUL in s {
      PadLess(s, CText(t + [NUL]));
    }
  }

  /** A string with a NUL in it: through strlen, "a\0b" comes back as "a  ". */
  lemma NulIsLost()
    ensures Pad(CText(TrimRight(['a', NUL, 'b']) + [NUL]), 3) == ['a', ' ', ' ']
  {
  }

  lemma TrimRightSame(c: seq<char>)
    ensures |TrimRight(c)| <= |c|
    ensures TrimRight(c) == c <==> !EndsBlank(c)
  {
  }

  lemma FittedText(c: seq<char>, n: nat, text: seq<char>)
    requires text == if |c| <= n then c else c[..n]
    ensures TrimRight(Pad(c, n)) == TrimRight(text)
  {
    assert Pad(c, n) == text + Blanks(n - |text|);
    TrimRightBlanks(text, n - |text|);
  }

  /** The other way round: what C gets back is its text cut to the buffer, without trailing blanks; so it is the same
      text exactly if that fits and does not end in a blank. */
  lemma CRoundTrip(c: seq<char>, n: nat)
    ensures TrimRight(Pad(c, n)) == TrimRight(if |c| <= n then c else c[..n])
    ensures TrimRight(Pad(c, n)) == c <==> |c| <= n && !EndsBlank(c)
  {
    var text := if |c| <= n then c else c[..n];
    FittedText(c, n, text);
    TrimRightSame(text);
  }

  // ----- arrays of strings

  /** Element k of an array of strings of one length. */
  function Entry(strarr: seq<char>, length: nat, k: nat): seq<char>
    requires (k + 1) * length <= |strarr|
  {
    assert k * length <= (k + 1) * length;
    strarr[k * length..(k + 1) * length]
  }

  ghost predicate BlankAt(strarr: seq<char>, length: nat, k: nat) {
    (k + 1) * length <= |strarr| && IsBlank(Entry(strarr, length, k))
  }

  /** Character by character. */
  lemma BlankAtIff(strarr: seq<char>, length: nat, k: nat, start: nat)
    requires start == k * length && start + length <= |strarr|
    ensures BlankAt(strarr, length, k) <==> forall i :: start <= i < start + length ==> strarr[i] == ' '
  {
    assert (k + 1) * length == start + length;
    var entry := Entry(strarr, length, k);
    assert entry == strarr[start..start + length];
    assert forall i :: start <= i < start + length ==> entry[i - start] == strarr[i];
  }

  /** Element n is the first that is blank. */
  ghost predicate IsCount(strarr: seq<char>, length: nat, n: nat) {
    BlankAt(strarr, length, n) && forall k :: 0 <= k < n ==> !BlankAt(strarr, length, k)
  }

  lemma MulLeq(a: nat, b: nat, c: nat)
    requires a <= b
    ensures a * c <= b * c
  {
  }

  lemma TrimmedToNothing(s: seq<char>, n: nat)
    requires IsTrimmedLength(s, n)
    ensures n == 0 <==> IsBlank(s)
  {
  }

  lemma NextEntry(strarr: seq<char>, length: nat, n: nat, last: nat)
    requires n <= last && (last + 1) * length <= |strarr|
    ensures (n + 1) * length <= |strarr| && 0 <= n * length && n * length + length == (n + 1) * length
    ensures strarr[n * length..n * length + length] == Entry(strarr, length, n)
  {
  }

  /** An array with a blank element: the search ends, at the first. */
  method FCount(strarr: seq<char>, length: nat) returns (n: nat)
    requires exists k: nat :: BlankAt(strarr, length, k)
    ensures IsCount(strarr, length, n)
  {
    ghost var last: nat :| BlankAt(strarr, length, last);
    n := 0;
    while true
      invariant n <= last
      invariant forall k :: 0 <= k < n ==> !BlankAt(strarr, length, k)
      decreases last - n
    {
      NextEntry(strarr, length, n, last);
      var len := FStrLen(strarr[n * length..n * length + length]);
      TrimmedToNothing(Entry(strarr, length, n), len);
      if len == 0 {
        return n;
      }
      n := n + 1;
    }
  }

  // ----- and of arrays of arrays

  lemma CellFits(size: nat, index: nat, rows: nat, row: nat, length: nat)
    requires index < size && row < rows
    ensures 0 <= index * length + row * length * size == (index + row * size) * length
    ensures (index + row * size + 1) * length <= size * rows * length
  {
    assert row * length * size == (row * size) * length;
    MulLeq(row + 1, rows, size);
    assert (row + 1) * size == row * size + size;
    MulLeq(index + row * size + 1, rows * size, length);
  }

  /** strarr(index, :), one element after the other. */
  function Column(strarr: seq<char>, size: nat, index: nat, length: nat, rows: nat): (c: seq<char>)
    requires index < size && size * rows * length <= |strarr|
    ensures |c| == rows * length
  {
    if rows == 0 then []
    else
      CellFits(size, index, rows, rows - 1, length);
      MulLeq(size * (rows - 1), size * rows, length);
      assert (rows - 1) * length + length == rows * length;
      Column(strarr, size, index, length, rows - 1) + Entry(strarr, length, index + (rows - 1) * size)
  }

  lemma EntryKept(init: seq<char>, more: seq<char>, length: nat, k: nat)
    requires (k + 1) * length <= |init|
    ensures (k + 1) * length <= |init + more| && Entry(init + more, length, k) == Entry(init, length, k)
  {
  }

  lemma EntryLast(init: seq<char>, entry: seq<char>, length: nat, k: nat)
    requires |init| == k * length && |entry| == length
    ensures (k + 1) * length == |init + entry| && Entry(init + entry, length, k) == entry
  {
  }

  lemma {:induction false} ColumnEntry(strarr: seq<char>, size: nat, index: nat, length: nat, rows: nat, row: nat)
    requires index < size && row < rows && size * rows * length <= |strarr|
    ensures (row + 1) * length <= |Column(strarr, size, index, length, rows)|
    ensures (index + row * size + 1) * length <= |strarr|
    ensures Entry(Column(strarr, size, index, length, rows), length, row) == Entry(strarr, length, index + row * size)
  {
    CellFits(size, index, rows, row, length);
    CellFits(size, index, rows, rows - 1, length);
    MulLeq(size * (rows - 1), size * rows, length);
    var init := Column(strarr, size, index, length, rows - 1);
    var last := Entry(strarr, length, index + (rows - 1) * size);
    if row < rows - 1 {
      ColumnEntry(strarr, size, index, length, rows - 1, row);
      EntryKept(init, last, length, row);
    } else {
      EntryLast(init, last, length, row);
    }
  }

  /** Character c of element `row` of the column is that of strarr(index, row): array element order. */
  lemma ColumnAt(strarr: seq<char>, size: nat, index: nat, length: nat, rows: nat, row: nat, c: nat)
    requires index < size && row < rows && c < length && size * rows * length <= |strarr|
    ensures 0 <= row * length + c < rows * length && 0 <= (row * size + index) * length + c < |strarr|
    ensures Column(strarr, size, index, length, rows)[row * length + c] == strarr[(row * size + index) * length + c]
  {
    var column, at := Column(strarr, size, index, length, rows), index + row * size;
    ColumnEntry(strarr, size, index, length, rows, row);
    EntryAt(column, length, row, c);
    EntryAt(strarr, length, at, c);
  }

  lemma EntryAt(s: seq<char>, length: nat, k: nat, c: nat)
    requires (k + 1) * length <= |s| && c < length
    ensures 0 <= k * length + c < |s| && Entry(s, length, k)[c] == s[k * length + c]
  {
    assert (k + 1) * length == k * length + length;
    assert k * length >= 0;
  }

  /** The bytes the strided search looks at are the column's next element. */
  lemma StridedEntry(strarr: seq<char>, size: nat, index: nat, length: nat, rows: nat, row: nat)
    returns (start: nat)
    requires index < size && row < rows && size * rows * length <= |strarr|
    ensures start == index * length + row * length * size && start + length <= |strarr|
    ensures (row + 1) * length <= |Column(strarr, size, index, length, rows)|
    ensures strarr[start..start + length] == Entry(Column(strarr, size, index, length, rows), length, row)
  {
    CellFits(size, index, rows, row, length);
    ColumnEntry(strarr, size, index, length, rows, row);
    start := index * length + row * length * size;
    assert start + length == (index + row * size + 1) * length;
  }

  /** The strided search is the plain search in the column of an array strarr(size, rows). */
  method FCount2d(strarr: seq<char>, size: nat, index: nat, length: nat, ghost rows: nat) returns (n: nat)
    requires index < size && size * rows * length <= |strarr|
    requires exists k: nat :: k < rows && BlankAt(strarr, length, index + k * size)
    ensures n < rows && IsCount(Column(strarr, size, index, length, rows), length, n)
  {
    ghost var column := Column(strarr, size, index, length, rows);
    ghost var last: nat :| last < rows && BlankAt(strarr, length, index + last * size);
    ColumnEntry(strarr, size, index, length, rows, last);
    assert BlankAt(column, length, last);
    n := 0;
    while true
      invariant n <= last
      invariant forall k :: 0 <= k < n ==> !BlankAt(column, length, k)
      decreases last - n
    {
      ghost var s := StridedEntry(strarr, size, index, length, rows, n);
      var start := index * length + n * length * size;
      var len := FStrLen(strarr[start..start + length]);
      TrimmedToNothing(Entry(column, length, n), len);
      if len == 0 {
        return n;
      }
      n := n + 1;
    }
  }
}
