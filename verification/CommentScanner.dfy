/** Finding the first comment marker of a line: the byte scanner, and the automaton it agrees with. */
module CommentScanner {
  import opened Bytes

  /** Where a reader that takes one byte at a time is. */
  datatype Mode =
    | Code
    | Slash                            // a slash in code
    | RawStart(hashes: nat)            // an r and that many hashes
    | Raw(hashes: nat)                 // in a raw string
    | RawEnd(hashes: nat, seen: nat)   // in a raw string, after a quote and that many hashes
    | Str
    | StrEscape
    | Quote                            // after a single quote
    | QuoteThen(c: Byte)               // after a single quote and one byte
    | Escape                           // after a single quote and a backslash
    | EscapeU                          // ... and a u
    | EscapeBraces                     // ... and an opening brace
    | EscapeDone                       // the escape is complete, a closing quote may follow
    | LineComment
    | BlockComment

  function FromCode(c: Byte): Mode {
    match c
    case '/' => Slash
    case 'r' => RawStart(0)
    case '"' => Str
    case '\'' => Quote
    case _ => Code
  }

  function Next(m: Mode, c: Byte): Mode
    decreases m.QuoteThen?
  {
    match m
    case Code => FromCode(c)
    case Slash => if c == '/' then LineComment else if c == '*' then BlockComment else FromCode(c)
    case RawStart(n) => if c == '#' then RawStart(n + 1) else if c == '"' then Raw(n) else FromCode(c)
    case Raw(n) => if c != '"' then m else if n == 0 then Code else RawEnd(n, 0)
    case RawEnd(n, k) =>
      if c == '#' then (if k + 1 == n then Code else RawEnd(n, k + 1))
      else if c == '"' then RawEnd(n, 0)
      else Raw(n)
    case Str => if c == '\\' then StrEscape else if c == '"' then Code else Str
    case StrEscape => Str
    case Quote => if c == '\\' then Escape else QuoteThen(c)
    case QuoteThen(c0) => if c == '\'' then Code else Next(FromCode(c0), c)  // otherwise a lifetime
    case Escape => if c == 'u' then EscapeU else EscapeDone
    case EscapeU => if c == '{' then EscapeBraces else if c == '\'' then Code else FromCode(c)
    case EscapeBraces => if c == '}' then EscapeDone else m
    case EscapeDone => if c == '\'' then Code else FromCode(c)
    case LineComment => m
    case BlockComment => m
  }

  datatype Marker = NoMarker | LineAt(pos: int) | BlockAt(pos: int)

  /** The marker the reader first meets, from byte `i` on; a marker starts one byte before the byte that
      completes it. */
  function FirstMarker(b: Text, i: nat, m: Mode): Marker
    decreases |b| - i
  {
    if i >= |b| then NoMarker
    else
      match Next(m, b[i])
      case LineComment => LineAt(i - 1)
      case BlockComment => BlockAt(i - 1)
      case m' => FirstMarker(b, i + 1, m')
  }

  // Raw strings: a quote and as many hashes close them.

  function Hashes(n: nat): (r: Text)
    ensures |r| == n && forall i :: 0 <= i < n ==> r[i] == '#'
  {
    seq(n, i => '#')
  }

  function Closer(n: nat): (r: Text)
    ensures |r| == n + 1
  {
    ['"'] + Hashes(n)
  }

  /** Still inside a raw string entered at `start`; a partial closer ends at `i`. */
  ghost predicate InRaw(b: Text, start: nat, i: nat, n: nat, m: Mode) {
    || m == Raw(n)
    || (m.RawEnd? && m.hashes == n && m.seen < n && start + m.seen + 1 <= i
        && MatchesAt(b, Closer(m.seen), i - 1 - m.seen))
  }

  lemma LongerCloser(b: Text, k: nat, j: nat)
    requires MatchesAt(b, Closer(k), j) && j + k + 1 < |b| && b[j + k + 1] == '#'
    ensures MatchesAt(b, Closer(k + 1), j)
  {
    assert b[j..j + k + 2] == b[j..j + k + 1] + [b[j + k + 1]];
    assert Closer(k + 1) == Closer(k) + ['#'];
  }

  lemma RawStep(b: Text, start: nat, i: nat, n: nat, m: Mode)
    requires start <= i < |b| && InRaw(b, start, i, n, m)
    ensures var m' := Next(m, b[i]);
            InRaw(b, start, i + 1, n, m') || (m' == Code && start + n <= i && MatchesAt(b, Closer(n), i - n))
  {
    if b[i] == '"' {
      OneByteCloser(b, i);
    } else if b[i] == '#' && m.RawEnd? {
      HashInCloser(b, start, i, n, m.seen);
    }
  }

  lemma HashInCloser(b: Text, start: nat, i: nat, n: nat, k: nat)
    requires i < |b| && b[i] == '#' && k < n && InRaw(b, start, i, n, RawEnd(n, k))
    ensures if k + 1 == n then start + n <= i && MatchesAt(b, Closer(n), i - n)
            else InRaw(b, start, i + 1, n, RawEnd(n, k + 1))
  {
    LongerCloser(b, k, i - 1 - k);
  }

  lemma OneByteCloser(b: Text, i: nat)
    requires i < |b| && b[i] == '"'
    ensures MatchesAt(b, Closer(0), i)
  {
    assert b[i..i + 1] == Closer(0);
  }

  /** Up to the first closer the reader stays in the raw string. */
  lemma {:induction false} RawUntil(b: Text, start: nat, i: nat, n: nat, m: Mode, stop: nat) returns (m': Mode)
    requires start <= i <= stop <= |b| && InRaw(b, start, i, n, m)
    requires forall j :: start <= j < stop ==> !MatchesAt(b, Closer(n), j)
    ensures InRaw(b, start, stop, n, m') && FirstMarker(b, i, m) == FirstMarker(b, stop, m')
    decreases stop - i
  {
    if i == stop {
      m' := m;
    } else {
      RawStep(b, start, i, n, m);
      m' := RawUntil(b, start, i + 1, n, Next(m, b[i]), stop);
    }
  }

  lemma {:induction false} RawHashes(b: Text, p: nat, n: nat, k: nat)
    requires k < n && MatchesAt(b, Closer(n), p)
    ensures FirstMarker(b, p + 1 + k, RawEnd(n, k)) == FirstMarker(b, p + 1 + n, Code)
    decreases n - k
  {
    assert b[p + 1 + k] == b[p..p + 1 + n][1 + k] == '#';
    if k + 1 < n {
      RawHashes(b, p, n, k + 1);
    }
  }

  /** What the substring search for the closer finds is where the reader leaves the raw string. */
  lemma RawCloses(b: Text, start: nat, n: nat)
    requires start <= |b|
    ensures var p := FindFrom(b, Closer(n), start);
            FirstMarker(b, start, Raw(n)) == if p.None? then NoMarker else FirstMarker(b, p.value + n + 1, Code)
  {
    var p := FindFrom(b, Closer(n), start);
    if p.None? {
      var m := RawUntil(b, start, start, n, Raw(n), |b|);
    } else {
      var m := RawUntil(b, start, start, n, Raw(n), p.value);
      CloserReads(b, p.value, n, m);
    }
  }

  lemma CloserReads(b: Text, p: nat, n: nat, m: Mode)
    requires MatchesAt(b, Closer(n), p) && (m == Raw(n) || (m.RawEnd? && m.hashes == n && m.seen < n))
    ensures FirstMarker(b, p, m) == FirstMarker(b, p + n + 1, Code)
  {
    assert b[p] == b[p..p + 1 + n][0] == '"';
    if n > 0 {
      assert FirstMarker(b, p, m) == FirstMarker(b, p + 1, RawEnd(n, 0));
      RawHashes(b, p, n, 0);
    }
  }

  lemma {:induction false} HashRun(b: Text, i: nat, k: nat, n: nat)
    requires i <= |b| && k <= n && i + n - k <= |b| && forall j :: i <= j < i + n - k ==> b[j] == '#'
    ensures FirstMarker(b, i, RawStart(k)) == FirstMarker(b, i + n - k, RawStart(n))
    decreases n - k
  {
    if k < n {
      HashRun(b, i + 1, k + 1, n);
    }
  }

  lemma {:induction false} HashesAreCode(b: Text, i: nat, n: nat)
    requires i + n <= |b| && forall j :: i <= j < i + n ==> b[j] == '#'
    ensures FirstMarker(b, i, Code) == FirstMarker(b, i + n, Code)
    decreases n
  {
    if n > 0 {
      HashesAreCode(b, i + 1, n - 1);
    }
  }

  /** After the hashes either the raw string opens or what follows is read as code. */
  lemma RawStartReads(b: Text, i: nat, n: nat)
    requires i < |b| ==> b[i] != '#'
    ensures FirstMarker(b, i, RawStart(n)) ==
            if i < |b| && b[i] == '"' then FirstMarker(b, i + 1, Raw(n)) else FirstMarker(b, i, Code)
  {
  }

  method CountHashes(b: Text, start: nat) returns (n: nat)
    requires start <= |b|
    ensures start + n <= |b| && (forall j :: start <= j < start + n ==> b[j] == '#')
    ensures start + n < |b| ==> b[start + n] != '#'
  {
    n := 0;
    while start + n < |b| && b[start + n] == '#'
      invariant start + n <= |b| && forall j :: start <= j < start + n ==> b[j] == '#'
    {
      n := n + 1;
    }
  }

  /** Past the closing quote of a string, or past the end. */
  method SkipString(b: Text, start: nat) returns (i: nat)
    requires start <= |b|
    ensures i >= start && FirstMarker(b, start, Str) == FirstMarker(b, i, Code)
  {
    i := start;
    while i < |b|
      invariant i >= start && FirstMarker(b, start, Str) == FirstMarker(b, i, Str)
      decreases |b| - i
    {
      if b[i] == '\\' {
        assert i + 1 < |b| ==> Next(Next(Str, b[i]), b[i + 1]) == Str;
        i := i + 2;
      } else if b[i] == '"' {
        i := i + 1;
        return;
      } else {
        i := i + 1;
      }
    }
  }

  /** Past an escaped character literal; `start` is the byte after the backslash. */
  method SkipEscape(b: Text, start: nat) returns (i: nat)
    requires start <= |b|
    ensures i >= start && FirstMarker(b, start, Escape) == FirstMarker(b, i, Code)
  {
    i := start;
    if i + 1 < |b| && b[i] == 'u' && b[i + 1] == '{' {
      i := i + 2;
      while i < |b| && b[i] != '}'
        invariant i >= start && FirstMarker(b, start, Escape) == FirstMarker(b, i, EscapeBraces)
      {
        i := i + 1;
      }
      i := i + 1;
    } else {
      i := i + 1;
    }
    if i < |b| && b[i] == '\'' {
      i := i + 1;
    }
  }

  /** A quote that closes nothing leaves the next byte to be read as code. */
  lemma LifetimeReads(b: Text, i: nat)
    requires i < |b| ==> b[i] != '\\'
    requires i + 1 < |b| ==> b[i + 1] != '\''
    ensures FirstMarker(b, i, Quote) == FirstMarker(b, i, Code)
  {
    if i + 1 < |b| {
      assert Next(QuoteThen(b[i]), b[i + 1]) == Next(FromCode(b[i]), b[i + 1]);
    }
  }

  lemma RawOpens(b: Text, start: nat, n: nat)
    requires start + n < |b| && b[start] == 'r' && (forall j :: start < j <= start + n ==> b[j] == '#')
    requires start + 1 + n < |b| ==> b[start + 1 + n] != '#'
    ensures var quote := start + 1 + n;
            FirstMarker(b, start, Code) ==
            if quote < |b| && b[quote] == '"' then FirstMarker(b, quote + 1, Raw(n))
            else FirstMarker(b, start + 1, Code)
  {
    HashRun(b, start + 1, 0, n);
    HashesAreCode(b, start + 1, n);
    RawStartReads(b, start + 1 + n, n);
    assert FirstMarker(b, start, Code) == FirstMarker(b, start + 1, RawStart(0));
  }

  /** Where reading goes on after the r at `start` with its `n` hashes, if it goes on in code at all. */
  function AfterRaw(b: Text, start: nat, n: nat): (r: Option<nat>)
    ensures r.Some? ==> r.value > start
  {
    var quote := start + 1 + n;
    if quote < |b| && b[quote] == '"' then
      var close := FindFrom(b, Closer(n), quote + 1);
      if close.None? then None else Some(close.value + |Closer(n)|)
    else Some(start + 1)
  }

  lemma RawIsPassed(b: Text, start: nat, n: nat)
    requires start + n < |b| && b[start] == 'r' && (forall j :: start < j <= start + n ==> b[j] == '#')
    requires start + 1 + n < |b| ==> b[start + 1 + n] != '#'
    ensures FirstMarker(b, start, Code) ==
            if AfterRaw(b, start, n).None? then NoMarker else FirstMarker(b, AfterRaw(b, start, n).value, Code)
  {
    RawOpens(b, start, n);
    if start + 1 + n < |b| {
      RawCloses(b, start + 2 + n, n);
    }
  }

  /** Past a raw string that starts with the r at `start`, or past that r alone. */
  method SkipRaw(b: Text, start: nat) returns (after: Option<nat>)
    requires start + 1 < |b| && b[start] == 'r'
    ensures after.Some? ==> after.value > start && FirstMarker(b, start, Code) == FirstMarker(b, after.value, Code)
    ensures after.None? ==> FirstMarker(b, start, Code) == NoMarker
  {
    var n := CountHashes(b, start + 1);
    RawIsPassed(b, start, n);
    after := AfterRaw(b, start, n);
  }

  /** Past a character literal, or past the quote of a lifetime. */
  method SkipQuote(b: Text, start: nat) returns (i: nat)
    requires start < |b| && b[start] == '\''
    ensures i > start && FirstMarker(b, start, Code) == FirstMarker(b, i, Code)
  {
    i := start + 1;
    assert FirstMarker(b, start, Code) == FirstMarker(b, i, Quote);
    if i < |b| && b[i] == '\\' {
      assert FirstMarker(b, i, Quote) == FirstMarker(b, i + 1, Escape);
      i := SkipEscape(b, i + 1);
    } else if i + 1 < |b| && b[i + 1] == '\'' {
      assert FirstMarker(b, i, Quote) == FirstMarker(b, i + 1, QuoteThen(b[i]));
      i := i + 2;
    } else {
      LifetimeReads(b, i);
    }
  }

  method FindCommentMarkers(b: Text) returns (line: Option<int>, block: Option<int>)
    ensures line == (if FirstMarker(b, 0, Code).LineAt? then Some(FirstMarker(b, 0, Code).pos) else None)
    ensures block == (if FirstMarker(b, 0, Code).BlockAt? then Some(FirstMarker(b, 0, Code).pos) else None)
  {
    var i: nat := 0;
    while i < |b|
      invariant FirstMarker(b, 0, Code) == FirstMarker(b, i, Code)
      decreases |b| - i
    {
      if (b[i] == 'b' || b[i] == 'c') && i + 1 < |b| && (b[i + 1] == '"' || b[i + 1] == '\'') {
        i := i + 1;
      } else if b[i] == 'r' && i + 1 < |b| && (b[i + 1] == '"' || b[i + 1] == '#') {
        var after := SkipRaw(b, i);
        if after.None? {
          return None, None;
        }
        i := after.value;
      } else if b[i] == '"' {
        i := SkipString(b, i + 1);
      } else if b[i] == '\'' {
        i := SkipQuote(b, i);
      } else if b[i] == '/' && i + 1 < |b| {
        if b[i + 1] == '/' {
          return Some(i), None;
        } else if b[i + 1] == '*' {
          return None, Some(i);
        }
        i := i + 1;
      } else {
        i := i + 1;
      }
    }
    return None, None;
  }
}
