/**
 * The small slice of Python the cinema code leans on: the values its
 * functions receive, the exceptions they raise, and the `str` operations
 * (`strip`, `upper`, `split`, `join`, `int()` and `str()` on integers)
 * that decide what a typed label, seat number or count means.
 */
module Py {

  datatype Option<T> = None | Some(value: T)

  /** What a call can raise.  Exceptions that a handler of the core catches
      and turns into a message are not errors here: they are the paths the
      operations take on bad user input. */
  datatype Error =
    | IncorrectArrayType
    | IncorrectArrayData
    | IncorrectShape
    | IncorrectlyChosenSeats
    | FileError(cause: FileCause)
    | EndOfInput          // EOFError: input() found the console input used up
    | UncaughtTypeError   // a TypeError no handler of the core catches

  /** The exception a FileError wraps. */
  datatype FileCause =
    | ArrayDataCause      // IncorrectArrayData
    | DirectoryMissing    // FileNotFoundError
    | BadPath             // TypeError from the write
    | BadTitle            // ValueError/TypeError while filtering a title
    | RowLabelsMissing    // IncorrectShape while drawing the row labels

  datatype Result<T> = Ok(value: T) | Err(error: Error)

  /** A Python argument, as far as the core inspects it. */
  datatype PyValue =
    | PyNone
    | PyInt(i: int)
    | PyStr(s: string)
    | PyList(items: seq<PyValue>, text: string)   // a list (unhashable), and what str() makes of it
    | PyTuple(items: seq<PyValue>, text: string)  // a tuple (hashable), and what str() makes of it
    | PyObject(text: string)                      // anything else: hashable, no len(), not iterable (a float, say)

  /** str(v) */
  function StrOf(v: PyValue): string {
    match v
    case PyNone => "None"
    case PyInt(i) => IntToString(i)
    case PyStr(s) => s
    case PyList(_, t) => t
    case PyTuple(_, t) => t
    case PyObject(t) => t
  }

  /** What `for x in v` walks over, or None when iterating raises TypeError. */
  function Iterate(v: PyValue): (r: Option<seq<PyValue>>)
    ensures v.PyStr? ==> r.Some? && |r.value| == |v.s|
    ensures v.PyStr? ==> forall k :: 0 <= k < |v.s| ==> r.value[k] == PyStr([v.s[k]])
    ensures r.Some? <==> v.PyStr? || v.PyList? || v.PyTuple?
  {
    match v
    case PyStr(s) => Some(seq(|s|, k requires 0 <= k < |s| => PyStr([s[k]])))
    case PyList(items, _) => Some(items)
    case PyTuple(items, _) => Some(items)
    case _ => None
  }

  /** len(v), or None when len() raises TypeError. */
  function LenOf(v: PyValue): Option<nat> {
    match v
    case PyStr(s) => Some(|s|)
    case PyList(items, _) => Some(|items|)
    case PyTuple(items, _) => Some(|items|)
    case _ => None
  }

  // ---------------------------------------------------------------------
  // str.strip() and str.upper()

  /** The characters str.strip() removes: the ASCII and Latin-1 ones among
      those str.isspace() accepts. */
  predicate IsSpace(c: char) {
    c == ' ' || ('\t' <= c <= '\r') || ('\U{1C}' <= c <= '\U{1F}') || c == '\U{85}' || c == '\U{A0}'
  }

  /** No whitespace at either end. */
  predicate IsTrimmed(s: string) {
    s == [] || (!IsSpace(s[0]) && !IsSpace(s[|s| - 1]))
  }

  /** str.strip(): whitespace is removed from both ends, one character at
      a time.  The result has no whitespace at its ends, is no longer than
      the input, and a string already trimmed comes back unchanged. */
  function Strip(s: string): (r: string)
    ensures IsTrimmed(r) && |r| <= |s|
    ensures IsTrimmed(s) ==> r == s
    decreases |s|
  {
    if s != [] && IsSpace(s[0]) then Strip(s[1..])
    else if s != [] && IsSpace(s[|s| - 1]) then Strip(s[..|s| - 1])
    else s
  }

  /** r is s[i..j] and only whitespace lies outside that slice. */
  predicate TrimsTo(s: string, r: string, i: int, j: int) {
    0 <= i <= j <= |s| && r == s[i..j] &&
    (forall k :: 0 <= k < i ==> IsSpace(s[k])) && (forall k :: j <= k < |s| ==> IsSpace(s[k]))
  }

  /** A leading blank extends the trimmed-off prefix by one. */
  lemma TrimsAfterFirst(s: string, r: string, i: int, j: int)
    requires s != [] && IsSpace(s[0]) && TrimsTo(s[1..], r, i, j)
    ensures TrimsTo(s, r, i + 1, j + 1)
  {
    assert s[1..][i..j] == s[i + 1..j + 1];
    forall k | 0 <= k < |s| && (k < i + 1 || j + 1 <= k)
      ensures IsSpace(s[k])
    {
      if k > 0 { assert s[k] == s[1..][k - 1]; }
    }
  }

  /** A trailing blank extends the trimmed-off suffix by one. */
  lemma TrimsBeforeLast(s: string, r: string, i: int, j: int)
    requires s != [] && IsSpace(s[|s| - 1]) && TrimsTo(s[..|s| - 1], r, i, j)
    ensures TrimsTo(s, r, i, j)
  {
    var t := s[..|s| - 1];
    assert t[i..j] == s[i..j];
    forall k | 0 <= k < |s| && (k < i || j <= k)
      ensures IsSpace(s[k])
    {
      if k < |t| { assert s[k] == t[k]; }
    }
  }

  /** What strip() keeps: a slice of the input, with only whitespace cut
      off before it and after it. */
  lemma {:induction false} StripRemovesBlanks(s: string)
    ensures exists i, j :: TrimsTo(s, Strip(s), i, j)
    decreases |s|
  {
    if s != [] && IsSpace(s[0]) {
      StripRemovesBlanks(s[1..]);
      var i, j :| TrimsTo(s[1..], Strip(s[1..]), i, j);
      TrimsAfterFirst(s, Strip(s[1..]), i, j);
    } else if s != [] && IsSpace(s[|s| - 1]) {
      StripRemovesBlanks(s[..|s| - 1]);
      var i, j :| TrimsTo(s[..|s| - 1], Strip(s[..|s| - 1]), i, j);
      TrimsBeforeLast(s, Strip(s[..|s| - 1]), i, j);
    } else {
      assert TrimsTo(s, Strip(s), 0, |s|);
    }
  }


  /** str.upper() on ASCII letters. */
  function UpperChar(c: char): char {
    if 'a' <= c <= 'z' then (c as int - 32) as char else c
  }

  function Upper(s: string): (r: string)
    ensures |r| == |s|
    ensures forall k :: 0 <= k < |s| ==> r[k] == UpperChar(s[k])
  {
    seq(|s|, k requires 0 <= k < |s| => UpperChar(s[k]))
  }

  /** The form a row label takes once typed: `.strip().upper()`. */
  function Normalize(s: string): string {
    Upper(Strip(s))
  }

  /** Normalizing twice is normalizing once: the engine normalizes the typed
      row, and the row validator normalizes it again. */
  lemma NormalizeIdempotent(s: string)
    ensures Normalize(Normalize(s)) == Normalize(s)
  {
    var u := Upper(Strip(s));
    UpperKeepsTrim(Strip(s));
    UpperIdempotent(Strip(s));
  }

  lemma UpperKeepsTrim(t: string)
    requires IsTrimmed(t)
    ensures IsTrimmed(Upper(t))
  {
    var u := Upper(t);
    if u != [] {
      assert u[0] == UpperChar(t[0]) && u[|u| - 1] == UpperChar(t[|t| - 1]);
    }
  }

  lemma UpperIdempotent(t: string)
    ensures Upper(Upper(t)) == Upper(t)
  {
    var u := Upper(t);
    assert forall k :: 0 <= k < |u| ==> UpperChar(u[k]) == u[k];
  }

  // ---------------------------------------------------------------------
  // str.split(sep) and sep.join(parts)

  /** s.split(sep) for a one-character separator. */
  function Split(s: string, sep: char): (parts: seq<string>)
    ensures |parts| >= 1
    ensures forall k :: 0 <= k < |parts| ==> sep !in parts[k]
    decreases |s|
  {
    if s == [] then [[]]
    else
      var rest := Split(s[1..], sep);
      if s[0] == sep then [[]] + rest else [[s[0]] + rest[0]] + rest[1..]
  }

  /** sep.join(parts) */
  function Join(sep: string, parts: seq<string>): string
    decreases |parts|
  {
    if |parts| == 0 then []
    else if |parts| == 1 then parts[0]
    else parts[0] + sep + Join(sep, parts[1..])
  }

  /** Joining the pieces back with the separator restores the string. */
  lemma {:induction false} JoinSplit(s: string, sep: char)
    ensures Join([sep], Split(s, sep)) == s
    decreases |s|
  {
    if s != [] {
      var rest := Split(s[1..], sep);
      JoinSplit(s[1..], sep);
      if s[0] == sep {
        assert s == [sep] + s[1..];
      } else if |rest| == 1 {
        assert Split(s, sep) == [[s[0]] + rest[0]];
      } else {
        var parts := Split(s, sep);
        assert parts[1..] == rest[1..];
        assert Join([sep], parts) == [s[0]] + rest[0] + [sep] + Join([sep], rest[1..]);
      }
    }
  }

  /** The pieces of a + sep + b are those of a followed by those of b. */
  lemma {:induction false} SplitAppend(a: string, sep: char, b: string)
    ensures Split(a + [sep] + b, sep) == Split(a, sep) + Split(b, sep)
    decreases |a|
  {
    if a == [] {
      assert a + [sep] + b == [sep] + b;
      assert ([sep] + b)[1..] == b;
    } else {
      var s := a + [sep] + b;
      assert s[0] == a[0] && s[1..] == a[1..] + [sep] + b;
      SplitAppend(a[1..], sep, b);
    }
  }

  /** Splitting pieces joined with the separator gives the pieces back,
      when no piece holds the separator. */
  lemma {:induction false} SplitJoin(parts: seq<string>, sep: char)
    requires |parts| >= 1 && forall k :: 0 <= k < |parts| ==> sep !in parts[k]
    ensures Split(Join([sep], parts), sep) == parts
    decreases |parts|
  {
    if |parts| == 1 {
      SplitWithoutSep(parts[0], sep);
    } else {
      SplitJoin(parts[1..], sep);
      SplitAtFirst(parts[0], sep, Join([sep], parts[1..]));
      assert parts == [parts[0]] + parts[1..];
    }
  }

  /** A string without the separator is a single piece. */
  lemma {:induction false} SplitWithoutSep(a: string, sep: char)
    requires sep !in a
    ensures Split(a, sep) == [a]
    decreases |a|
  {
    if a != [] {
      SplitWithoutSep(a[1..], sep);
      assert [a[0]] + a[1..] == a;
    }
  }

  /** The text before the first separator is the first piece. */
  lemma {:induction false} SplitAtFirst(a: string, sep: char, b: string)
    requires sep !in a
    ensures Split(a + [sep] + b, sep) == [a] + Split(b, sep)
    decreases |a|
  {
    if a == [] {
      assert a + [sep] + b == [sep] + b;
      assert ([sep] + b)[1..] == b;
    } else {
      var s := a + [sep] + b;
      assert s[0] == a[0] && s[1..] == a[1..] + [sep] + b;
      SplitAtFirst(a[1..], sep, b);
      assert [a[0]] + a[1..] == a;
    }
  }

  // ---------------------------------------------------------------------
  // int(text) and str(n)

  predicate IsDigit(c: char) { '0' <= c <= '9' }

  predicate IsDigits(d: string) {
    |d| > 0 && forall k :: 0 <= k < |d| ==> IsDigit(d[k])
  }

  /** The number a string of decimal digits denotes. */
  function DigitsValue(d: string): nat
    decreases |d|
  {
    if |d| == 0 then 0
    else
      var last := d[|d| - 1] as int - '0' as int;
      DigitsValue(d[..|d| - 1]) * 10 + (if 0 <= last then last else 0)
  }

  /** int(text): surrounding whitespace, an optional sign, then decimal
      digits; None where Python raises ValueError. */
  function ParseInt(text: string): Option<int> {
    var t := Strip(text);
    if |t| >= 1 && (t[0] == '-' || t[0] == '+') && IsDigits(t[1..]) then
      var v: int := DigitsValue(t[1..]);
      Some(if t[0] == '-' then -v else v)
    else if IsDigits(t) then Some(DigitsValue(t))
    else None
  }

  function DigitChar(d: nat): char
    requires d < 10
  {
    ('0' as int + d) as char
  }

  function NatToString(n: nat): (r: string)
    ensures IsDigits(r)
  {
    if n < 10 then [DigitChar(n)] else NatToString(n / 10) + [DigitChar(n % 10)]
  }

  /** str(n) */
  function IntToString(n: int): string {
    if n < 0 then "-" + NatToString(-n) else NatToString(n)
  }

  lemma {:induction false} NatToStringValue(n: nat)
    ensures DigitsValue(NatToString(n)) == n
  {
    if n >= 10 {
      NatToStringValue(n / 10);
      var d := NatToString(n);
      assert d[..|d| - 1] == NatToString(n / 10);
    }
  }

  /** A string of digits and its negation have no whitespace at the ends. */
  lemma DigitsTrimmed(d: string)
    requires IsDigits(d)
    ensures IsTrimmed(d) && IsTrimmed("-" + d)
  {
    assert IsDigit(d[0]) && IsDigit(d[|d| - 1]);
  }

  /** int() reads a string of digits as its value. */
  lemma ParseUnsigned(d: string)
    requires IsDigits(d)
    ensures ParseInt(d) == Some(DigitsValue(d))
  {
    DigitsTrimmed(d);
    assert d[0] != '-' && d[0] != '+' by { assert IsDigit(d[0]); }
  }

  /** int() reads a minus sign and digits as the negated value. */
  lemma ParseNegative(d: string)
    requires IsDigits(d)
    ensures ParseInt("-" + d) == Some(-(DigitsValue(d) as int))
  {
    var t := "-" + d;
    DigitsTrimmed(d);
    assert t[1..] == d;
  }

  /** int() ignores the whitespace around the number, and refuses a string
      that is blank. */
  lemma ParseIgnoresBlanks(text: string)
    ensures ParseInt(text) == ParseInt(Strip(text))
    ensures Strip(text) == [] ==> ParseInt(text).None?
  {
  }

  /** int(str(n)) == n */
  lemma ParseIntToString(n: int)
    ensures ParseInt(IntToString(n)) == Some(n)
  {
    if n < 0 {
      NatToStringValue(-n);
      ParseNegative(NatToString(-n));
    } else {
      NatToStringValue(n);
      ParseUnsigned(NatToString(n));
    }
  }
}
