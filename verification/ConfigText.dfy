/**
 The text of a configuration file: how `conf_write` of common/kconfig/confdata.c writes the value of a
 string symbol or a tristate, and how `conf_read_simple` reads it back from a buffer of 1024 bytes.
 */
module ConfigText {
  import opened Options

  predicate Special(c: char) {
    c == '"' || c == '\\'
  }

  // ---- escaping ----

  function Escape(s: string): string {
    if s == "" then ""
    else if Special(s[0]) then ['\\', s[0]] + Escape(s[1..])
    else [s[0]] + Escape(s[1..])
  }

  function Prepend(s: string, o: Option<string>): Option<string> {
    if o.None? then None else Some(s + o.value)
  }

  /** Up to the first quote that no backslash precedes; without one the string is invalid. */
  function Unescape(t: string): Option<string> {
    if t == "" then None
    else if t[0] == '"' then Some("")
    else if t[0] != '\\' then Prepend([t[0]], Unescape(t[1..]))
    else if |t| == 1 then None
    else Prepend([t[1]], Unescape(t[2..]))
  }

  lemma Split(a: string, b: string)
    ensures (a + b)[..|a|] == a && (a + b)[|a|..] == b
  {
  }

  lemma SplitCut(a: string, b: string, k: nat)
    requires |a| <= k <= |a| + |b|
    ensures (a + b)[..k] == a + b[..k - |a|]
  {
  }

  lemma UnescapePlain(c: char, rest: string)
    requires !Special(c)
    ensures Unescape([c] + rest) == Prepend([c], Unescape(rest))
  {
    Split([c], rest);
  }

  lemma UnescapeSpecial(c: char, rest: string)
    ensures Unescape(['\\', c] + rest) == Prepend([c], Unescape(rest))
  {
    Split(['\\', c], rest);
  }

  lemma {:induction false} RoundTrip(s: string, tail: string)
    ensures Unescape(Escape(s) + (['"'] + tail)) == Some(s)
  {
    var quote := ['"'] + tail;
    if s == "" {
      assert "" + quote == quote;
    } else {
      var rest := Escape(s[1..]);
      RoundTrip(s[1..], tail);
      assert s == [s[0]] + s[1..];
      if Special(s[0]) {
        Associate(['\\', s[0]], rest, quote);
        UnescapeSpecial(s[0], rest + quote);
      } else {
        Associate([s[0]], rest, quote);
        UnescapePlain(s[0], rest + quote);
      }
    }
  }

  lemma Associate(a: string, b: string, c: string)
    ensures a + b + c == a + (b + c)
  {
  }

  /** Cut anywhere before the closing quote, the text is invalid. */
  lemma {:induction false} CutIsInvalid(s: string, k: nat)
    requires k <= |Escape(s)|
    ensures Unescape(Escape(s)[..k]) == None
  {
    if s != "" {
      var rest := Escape(s[1..]);
      if Special(s[0]) {
        if k > 1 {
          CutIsInvalid(s[1..], k - 2);
          SplitCut(['\\', s[0]], rest, k);
          UnescapeSpecial(s[0], rest[..k - 2]);
        }
      } else if k > 0 {
        CutIsInvalid(s[1..], k - 1);
        SplitCut([s[0]], rest, k);
        UnescapePlain(s[0], rest[..k - 1]);
      }
    }
  }

  /** How many characters from i on are not special. */
  function Span(s: string, i: nat): (n: nat)
    requires i <= |s|
    ensures i + n <= |s|
    decreases |s| - i
  {
    if i < |s| && !Special(s[i]) then 1 + Span(s, i + 1) else 0
  }

  lemma {:induction false} SpanIs(s: string, i: nat)
    requires i <= |s|
    ensures i + Span(s, i) <= |s| && (i + Span(s, i) < |s| ==> Special(s[i + Span(s, i)]))
    ensures Escape(s[i..]) == s[i..i + Span(s, i)] + Escape(s[i + Span(s, i)..])
    decreases |s| - i
  {
    var n := Span(s, i);
    if n > 0 {
      SpanIs(s, i + 1);
      assert s[i..][1..] == s[i + 1..];
      assert s[i..i + n] == [s[i]] + s[i + 1..i + n];
    }
  }

  /** What has been written, followed by what is still to be escaped, is the escaped string. */
  ghost predicate Written(out: string, str: string, i: nat) {
    (i <= |str| && out + Escape(str[i..]) == Escape(str)) <==> true
  }

  lemma Append(out: string, part: string, rest: string, all: string)
    requires out + (part + rest) == all
    ensures (out + part) + rest == all
  {
    assert (out + part) + rest == out + (part + rest);
  }

  lemma WrittenPlain(out: string, str: string, i: nat)
    requires Written(out, str, i)
    ensures Written(out + str[i..i + Span(str, i)], str, i + Span(str, i))
  {
    SpanIs(str, i);
    Append(out, str[i..i + Span(str, i)], Escape(str[i + Span(str, i)..]), Escape(str));
  }

  lemma WrittenSpecial(out: string, str: string, i: nat)
    requires Written(out, str, i) && i < |str| && Special(str[i])
    ensures Written(out + ['\\', str[i]], str, i + 1)
  {
    assert str[i..][1..] == str[i + 1..];
    Append(out, ['\\', str[i]], Escape(str[i + 1..]), Escape(str));
  }

  /** The inner loop: special characters, each after a backslash. */
  method WriteSpecials(str: string, from: nat, out0: string) returns (i: nat, out: string)
    requires Written(out0, str, from) && from <= |str|
    ensures from <= i <= |str| && Written(out, str, i) && (from < |str| && Special(str[from]) ==> from < i)
  {
    i, out := from, out0;
    while i < |str| && Special(str[i])
      invariant from <= i <= |str| && Written(out, str, i)
    {
      WrittenSpecial(out, str, i);
      out := out + ['\\', str[i]];
      i := i + 1;
    }
  }

  /** The loop of `conf_write`. */
  method WriteEscaped(str: string) returns (out: string)
    ensures out == Escape(str)
  {
    var i: nat, more := 0, true;
    out := "";
    assert str[0..] == str && "" + Escape(str) == Escape(str);
    while more
      invariant i <= |str| && Written(out, str, i) && (!more ==> i == |str|)
      decreases |str| - i, more
    {
      SpanIs(str, i);
      WrittenPlain(out, str, i);
      var l := Span(str, i);
      out := out + str[i..i + l];
      i, out := WriteSpecials(str, i + l, out);
      more := i < |str|;
    }
    assert out + "" == out;
  }

  // ---- unescaping in place ----

  const NUL: char := '\0'

  lemma {:induction false} SkipPlain(t: string, n: nat)
    requires n <= |t| && forall i :: 0 <= i < n ==> !Special(t[i])
    ensures Unescape(t) == Prepend(t[..n], Unescape(t[n..]))
  {
    if n == 0 {
      assert t[0..] == t;
      if Unescape(t).Some? { assert "" + Unescape(t).value == Unescape(t).value; }
    } else {
      SkipPlain(t[1..], n - 1);
      assert t[1..][n - 1..] == t[n..] && t[..n] == [t[0]] + t[1..][..n - 1];
      PrependTwice([t[0]], t[1..][..n - 1], Unescape(t[n..]));
    }
  }

  lemma PrependTwice(x: string, y: string, o: Option<string>)
    ensures Prepend(x, Prepend(y, o)) == Prepend(x + y, o)
  {
    if o.Some? { assert x + (y + o.value) == (x + y) + o.value; }
  }

  /** `strpbrk(p2, ...)`: the next special character before the terminating NUL at `stop`. */
  method FindSpecial(buf: array<char>, from: nat, stop: nat) returns (k: nat)
    requires from <= stop < buf.Length && buf[stop] == NUL && forall i :: from <= i < stop ==> buf[i] != NUL
    ensures from <= k <= stop && (k < stop ==> Special(buf[k])) && forall i :: from <= i < k ==> !Special(buf[i])
  {
    k := from;
    while buf[k] != NUL && !Special(buf[k])
      invariant from <= k <= stop && forall i :: from <= i < k ==> !Special(buf[i])
      decreases stop - k
    {
      k := k + 1;
    }
  }

  /** `memmove(p2, p2 + 1, strlen(p2))`: the character at k goes, the terminator at `stop` comes along. */
  method DeleteAt(buf: array<char>, k: nat, stop: nat)
    requires k < stop < buf.Length
    modifies buf
    ensures buf[..k] == old(buf[..k]) && buf[k..stop] == old(buf[k + 1..stop + 1]) && buf[stop..] == old(buf[stop..])
  {
    var j := k;
    while j < stop
      invariant k <= j <= stop
      invariant forall i :: 0 <= i < buf.Length ==> buf[i] == if k <= i < j then old(buf[i + 1]) else old(buf[i])
    {
      buf[j] := buf[j + 1];
      j := j + 1;
    }
  }

  /** `text` is what stands at p: decoded up to p2, still escaped up to `stop`. */
  ghost predicate Decoding(text: string, buf: seq<char>, p: nat, p2: nat, stop: nat) {
    (p <= p2 <= stop < |buf| && buf[stop] == NUL && NUL !in buf[p..stop]
        && Unescape(text) == Prepend(buf[p..p2], Unescape(buf[p2..stop]))) <==> true
  }

  lemma DecodeStart(buf: seq<char>, p: nat, stop: nat)
    requires p <= stop < |buf| && buf[stop] == NUL && NUL !in buf[p..stop]
    ensures Decoding(buf[p..stop], buf, p, p, stop)
  {
    var t := buf[p..stop];
    SkipPlain(t, 0);
    assert t[0..] == t && t[..0] == buf[p..p];
  }

  /** Plain characters stay where they are. */
  lemma DecodePlain(text: string, buf: seq<char>, p: nat, p2: nat, stop: nat, k: nat)
    requires Decoding(text, buf, p, p2, stop) && p2 <= k <= stop && forall i :: p2 <= i < k ==> !Special(buf[i])
    ensures Decoding(text, buf, p, k, stop)
  {
    var t, n := buf[p2..stop], k - p2;
    forall i | 0 <= i < n ensures !Special(t[i]) { assert t[i] == buf[p2 + i]; }
    SkipPlain(t, n);
    assert t[n..] == buf[k..stop] && buf[p..k] == buf[p..p2] + t[..n];
    PrependTwice(buf[p..p2], t[..n], Unescape(buf[k..stop]));
  }

  /** A backslash is deleted, and the character after it is decoded. */
  lemma DecodeEscape(text: string, buf: seq<char>, buf': seq<char>, p: nat, k: nat, stop: nat)
    requires Decoding(text, buf, p, k, stop) && k + 1 < stop && buf[k] == '\\' && |buf'| == |buf|
    requires buf'[..k] == buf[..k] && buf'[k..stop] == buf[k + 1..stop + 1]
    ensures Decoding(text, buf', p, k + 1, stop - 1)
  {
    var t := buf[k..stop];
    assert forall i :: k <= i < stop ==> buf'[i] == buf'[k..stop][i - k] == buf[k + 1..stop + 1][i - k] == buf[i + 1];
    assert forall i :: 0 <= i < k ==> buf'[i] == buf'[..k][i] == buf[..k][i] == buf[i];
    assert t[2..] == buf'[k + 1..stop - 1] && t[1] == buf'[k];
    assert buf'[p..k + 1] == buf[p..k] + [t[1]];
    PrependTwice(buf[p..k], [t[1]], Unescape(t[2..]));
    forall i | p <= i < stop - 1 ensures buf'[i] != NUL {
      assert if i < k then buf[p..stop][i - p] == buf'[i] else buf[p..stop][i + 1 - p] == buf'[i];
    }
  }

  /** What the string at p turns out to be. */
  ghost predicate Decoded(text: string, buf: seq<char>, p: nat, r: Option<nat>) {
    match r
    case None => Unescape(text) == None
    case Some(e) => p <= e < |buf| && buf[e] == NUL && Unescape(text) == Some(buf[p..e])
  }

  /**
   The loop of `conf_read_simple` behind the opening quote: the terminator of the string, or None if it is
   invalid.
   */
  method Unquote(buf: array<char>, p: nat, stop0: nat) returns (r: Option<nat>)
    requires p <= stop0 < buf.Length && buf[stop0] == NUL && NUL !in buf[p..stop0]
    modifies buf
    ensures Decoded(old(buf[p..stop0]), buf[..], p, r)
  {
    var p2, stop := p, stop0;
    ghost var text := buf[p..stop0];
    assert buf[..][p..stop0] == text;
    DecodeStart(buf[..], p, stop0);
    while true
      invariant p <= p2 <= stop < buf.Length && Decoding(text, buf[..], p, p2, stop)
      decreases stop - p2
    {
      NoNul(text, buf[..], p, p2, stop);
      var k := FindSpecial(buf, p2, stop);
      DecodePlain(text, buf[..], p, p2, stop, k);
      if k == stop {
        assert buf[..][k..stop] == "";
        return None;
      }
      if buf[k] == '"' {
        assert Unescape(buf[..][k..stop]) == Some("");
        assert buf[..][p..k] + "" == buf[..][p..k];
        ghost var value := buf[..][p..k];
        buf[k] := NUL;
        assert buf[..][p..k] == value;
        return Some(k);
      }
      ghost var was := buf[..];
      DeleteAt(buf, k, stop);
      if k + 1 == stop {
        // the search would go on at the old terminator and find nothing
        assert was[k..stop] == ['\\'];
        return None;
      }
      assert buf[..][..k] == was[..k] && buf[..][k..stop] == was[k + 1..stop + 1];
      DecodeEscape(text, was, buf[..], p, k, stop);
      p2, stop := k + 1, stop - 1;
    }
  }

  lemma NoNul(text: string, buf: seq<char>, p: nat, p2: nat, stop: nat)
    requires Decoding(text, buf, p, p2, stop)
    ensures buf[stop] == NUL && forall i :: p2 <= i < stop ==> buf[i] != NUL
  {
    forall i | p2 <= i < stop ensures buf[i] != NUL { assert buf[p..stop][i - p] == buf[i]; }
  }

  // ---- lines ----

  const LINE_SIZE: nat := 1024

  datatype SymbolType = Boolean | Tristate | Text

  /** 0, 1, 2 are n, m, y. */
  datatype Value = Tri(t: nat) | Str(s: string)

  datatype Assignment = Nothing | Set(name: string, v: Value)

  function Line(name: string, v: Value): string {
    match v
    case Tri(t) =>
      if t == 0 then "# CONFIG_" + name + " is not set"
      else if t == 1 then "CONFIG_" + name + "=m"
      else "CONFIG_" + name + "=y"
    case Str(s) => "CONFIG_" + name + "=\"" + Escape(s) + "\""
  }

  /** The first c from i on, or the end. */
  function Find(s: string, c: char, i: nat): (k: nat)
    requires i <= |s|
    ensures i <= k <= |s| && c !in s[i..k] && (k < |s| ==> s[k] == c)
    decreases |s| - i
  {
    if i == |s| || s[i] == c then i
    else
      var k := Find(s, c, i + 1);
      assert s[i..k] == [s[i]] + s[i + 1..k];
      k
  }

  lemma {:induction false} FindIs(s: string, c: char, i: nat, k: nat)
    requires i <= k <= |s| && c !in s[i..k] && (k < |s| ==> s[k] == c)
    ensures Find(s, c, i) == k
    decreases k - i
  {
    if i < k {
      assert s[i..k] == [s[i]] + s[i + 1..k];
      FindIs(s, c, i + 1, k);
    }
  }

  /** `fgets`: up to and including the next newline, at most 1023 characters. */
  function Fgets(text: string): (n: nat)
    ensures n <= |text| && (text != "" ==> n > 0)
  {
    var k := Find(text, '\n', 0);
    var n := if k < |text| then k + 1 else k;
    if n < LINE_SIZE then n else LINE_SIZE - 1
  }

  function ReadValue(typ: SymbolType, p: string): Option<Value> {
    match typ
    case Text => if p != "" && p[0] == '"' && Unescape(p[1..]).Some? then Some(Str(Unescape(p[1..]).value)) else None
    case _ =>
      if p == "" then None
      else if typ == Tristate && p[0] == 'm' then Some(Tri(1))
      else if p[0] == 'y' then Some(Tri(2))
      else if p[0] == 'n' then Some(Tri(0))
      else None
  }

  /** What `conf_read_simple` does with one line. */
  function ReadLine(typeOf: string -> SymbolType, line: string): Assignment {
    if line == "" then Nothing
    else if line[0] == '#' then
      if |line| < 9 || line[2..9] != "CONFIG_" then Nothing
      else
        var p := Find(line, ' ', 9);
        if p < |line| && "is not set" <= line[p + 1..] && typeOf(line[9..p]) != Text
        then Set(line[9..p], Tri(0)) else Nothing
    else if line[0] == 'C' then
      if !("CONFIG_" <= line) then Nothing
      else
        var q := Find(line, '=', 7);
        if q == |line| then Nothing
        else
          match ReadValue(typeOf(line[7..q]), line[q + 1..Find(line, '\n', q + 1)])
          case Some(v) => Set(line[7..q], v)
          case None => Nothing
    else Nothing
  }

  // ---- lines in the buffer ----

  /** `strchr(line + from, c)`: the first c, or the terminating NUL at n. */
  method FindChar(buf: array<char>, c: char, from: nat, n: nat) returns (k: nat)
    requires from <= n < buf.Length && buf[n] == NUL && NUL !in buf[..n] && c != NUL
    ensures k <= n && k == Find(buf[..n], c, from)
  {
    ghost var line := buf[..n];
    k := from;
    while buf[k] != NUL && buf[k] != c
      invariant from <= k <= n && c !in line[from..k]
      decreases n - k
    {
      assert line[from..k + 1] == line[from..k] + [buf[k]];
      assert k < n;
      k := k + 1;
    }
    assert k < n ==> buf[k] == line[k] && line[k] in line;
    FindIs(line, c, from, k);
  }

  /** `memcmp` of the buffer with a text, which stops matching at a NUL. */
  lemma MatchInside(buf: seq<char>, at: nat, n: nat, text: string)
    requires n < |buf| && at <= n && at + |text| <= |buf| && buf[n] == NUL && NUL !in text
    ensures buf[at..at + |text|] == text ==> at + |text| <= n && buf[..n][at..at + |text|] == text
  {
    assert n < at + |text| ==> buf[at..at + |text|][n - at] == NUL && text[n - at] in text;
    if at + |text| <= n { assert buf[..n][at..at + |text|] == buf[at..at + |text|]; }
  }

  /** The value behind the equals sign at q, up to the newline or the end at e, which is NUL by now. */
  method ReadValueInPlace(typ: SymbolType, buf: array<char>, q: nat, e: nat) returns (v: Option<Value>)
    requires q < e < buf.Length && buf[e] == NUL && NUL !in buf[q + 1..e]
    modifies buf
    ensures v == ReadValue(typ, old(buf[q + 1..e]))
  {
    ghost var p := buf[q + 1..e];
    if e == q + 1 {
      return None;
    }
    assert p[0] == buf[q + 1];
    if typ == Text {
      if buf[q + 1] != '"' {
        return None;
      }
      assert p[1..] == buf[q + 2..e];
      var r := Unquote(buf, q + 2, e);
      if r == None {
        return None;
      }
      assert buf[..][q + 2..r.value] == buf[q + 2..r.value];
      v := Some(Str(buf[q + 2..r.value]));
    } else if typ == Tristate && buf[q + 1] == 'm' {
      v := Some(Tri(1));
    } else if buf[q + 1] == 'y' {
      v := Some(Tri(2));
    } else if buf[q + 1] == 'n' {
      v := Some(Tri(0));
    } else {
      v := None;
    }
  }

  /** A line that begins with C. */
  method ReadSettingInPlace(typeOf: string -> SymbolType, buf: array<char>, n: nat) returns (a: Assignment)
    requires buf.Length == LINE_SIZE && 0 < n < LINE_SIZE && buf[n] == NUL && NUL !in buf[..n] && buf[0] == 'C'
    modifies buf
    ensures a == ReadLine(typeOf, old(buf[..n]))
  {
    ghost var line := buf[..n];
    assert line[0] == buf[0];
    MatchInside(buf[..], 0, n, "CONFIG_");
    assert buf[..][0..7] == buf[..7];
    if buf[..7] != "CONFIG_" {
      if n >= 7 { assert line[..7] == buf[..7]; }
      return Nothing;
    }
    assert "CONFIG_" <= line;
    var q := FindChar(buf, '=', 7, n);
    if q == n {
      return Nothing;
    }
    var e := FindChar(buf, '\n', q + 1, n);
    var name := buf[7..q];
    assert name == line[7..q];
    buf[q] := NUL;
    buf[e] := NUL;
    assert buf[q + 1..e] == line[q + 1..e];
    var v := ReadValueInPlace(typeOf(name), buf, q, e);
    a := if v == None then Nothing else Set(name, v.value);
  }

  lemma PrefixAt(line: string, text: string, at: nat)
    requires at <= |line|
    ensures text <= line[at..] <==> at + |text| <= |line| && line[at..at + |text|] == text
  {
    if at + |text| <= |line| { assert line[at..][..|text|] == line[at..at + |text|]; }
  }

  /** A line that begins with #. */
  method ReadUnsetInPlace(typeOf: string -> SymbolType, buf: array<char>, n: nat) returns (a: Assignment)
    requires buf.Length == LINE_SIZE && 1 < n < LINE_SIZE && buf[n] == NUL && NUL !in buf[..n] && buf[0] == '#'
    modifies buf
    ensures a == ReadLine(typeOf, old(buf[..n]))
  {
    ghost var line := buf[..n];
    assert line[0] == buf[0];
    MatchInside(buf[..], 2, n, "CONFIG_");
    assert buf[..][2..9] == buf[2..9];
    if buf[2..9] != "CONFIG_" {
      if n >= 9 { assert line[2..9] == buf[2..9]; }
      return Nothing;
    }
    var p := FindChar(buf, ' ', 9, n);
    if p == n {
      return Nothing;
    }
    var name := buf[9..p];
    assert name == line[9..p];
    buf[p] := NUL;
    assert buf[p + 1..n] == line[p + 1..];
    PrefixAt(line, "is not set", p + 1);
    if n < p + 11 || buf[p + 1..p + 11] != "is not set" {
      assert n >= p + 11 ==> buf[p + 1..p + 11] == line[p + 1..p + 11];
      return Nothing;
    }
    assert buf[p + 1..p + 11] == line[p + 1..p + 11];
    a := if typeOf(name) != Text then Set(name, Tri(0)) else Nothing;
  }

  /**
   The body of the loop of `conf_read_simple` on its buffer. A line that is a single # and ends with the
   file is looked at beyond its end, where the line before it is still to be seen.
   */
  method ReadInPlace(typeOf: string -> SymbolType, buf: array<char>, n: nat) returns (a: Assignment)
    requires buf.Length == LINE_SIZE && n < LINE_SIZE && buf[n] == NUL && NUL !in buf[..n]
    modifies buf
    ensures old(buf[..n]) != "#" ==> a == ReadLine(typeOf, old(buf[..n]))
  {
    ghost var line := buf[..n];
    if n == 0 {
      return Nothing;
    }
    assert line[0] == buf[0] && (n == 1 && buf[0] == '#' ==> line == "#");
    if buf[0] == '#' && n > 1 {
      a := ReadUnsetInPlace(typeOf, buf, n);
    } else if buf[0] == 'C' {
      a := ReadSettingInPlace(typeOf, buf, n);
    } else {
      a := Nothing;
    }
  }

  predicate GoodName(name: string) {
    ' ' !in name && '=' !in name && '\n' !in name
  }

  /** A value the symbol can have, without a newline. */
  predicate GoodValue(typ: SymbolType, v: Value) {
    match v
    case Tri(t) => typ != Text && t <= 2 && (typ == Boolean ==> t != 1)
    case Str(s) => typ == Text && '\n' !in s
  }

  lemma {:induction false} EscapeAddsNoNewline(s: string)
    requires '\n' !in s
    ensures '\n' !in Escape(s)
  {
    if s != "" {
      assert s == [s[0]] + s[1..];
      EscapeAddsNoNewline(s[1..]);
    }
  }

  /** "CONFIG_name=" followed by p. */
  function Setting(name: string, p: string): string {
    "CONFIG_" + name + "=" + p
  }

  lemma Parts(a: string, b: string, c: string)
    ensures var s := a + b + c; s[..|a|] == a && s[|a|..|a| + |b|] == b && s[|a| + |b|..] == c
  {
  }

  lemma CutParts(a: string, b: string, c: string, k: nat)
    requires k <= |a| + |b| + |c|
    ensures var s := (a + b + c)[..k];
            && (|a| <= k <= |a| + |b| ==> s[..|a|] == a && s[|a|..] == b[..k - |a|])
            && (|a| + |b| <= k ==> s == a + b + c[..k - |a| - |b|])
  {
  }

  lemma SettingRead(typeOf: string -> SymbolType, name: string, p: string, tail: string)
    requires GoodName(name) && '\n' !in p && (tail == "" || tail == "\n")
    ensures ReadLine(typeOf, Setting(name, p) + tail)
         == match ReadValue(typeOf(name), p) case Some(v) => Set(name, v) case None => Nothing
  {
    var line, q := Setting(name, p) + tail, 7 + |name|;
    assert line == "CONFIG_" + name + ("=" + p + tail);
    Parts("CONFIG_", name, "=" + p + tail);
    assert line[q] == line[q..][0];
    FindIs(line, '=', 7, q);
    assert line == ("CONFIG_" + name + "=") + p + tail;
    Parts("CONFIG_" + name + "=", p, tail);
    FindIs(line, '\n', q + 1, q + 1 + |p|);
  }

  /** Cut before its value begins, a setting is no setting. */
  lemma SettingCut(typeOf: string -> SymbolType, name: string, p: string, k: nat)
    requires GoodName(name) && k <= 7 + |name|
    ensures ReadLine(typeOf, Setting(name, p)[..k]) == Nothing
  {
    var line := Setting(name, p)[..k];
    assert Setting(name, p) == "CONFIG_" + name + ("=" + p);
    CutParts("CONFIG_", name, "=" + p, k);
    if k >= 7 {
      FindIs(line, '=', 7, k);
    } else if k > 0 {
      assert line[0] == 'C';
    }
  }

  const UNSET := "# CONFIG_"

  lemma UnsetPrefix(line: string)
    requires UNSET <= line
    ensures |UNSET| == 9 && line[0] == '#' && line[2..9] == "CONFIG_"
  {
    assert line[..9] == UNSET;
    assert UNSET[2..] == "CONFIG_";
    assert line[2..9] == line[..9][2..];
  }

  lemma UnsetRead(typeOf: string -> SymbolType, name: string, tail: string)
    requires GoodName(name) && typeOf(name) != Text
    ensures ReadLine(typeOf, Line(name, Tri(0)) + tail) == Set(name, Tri(0))
  {
    var p, after := 9 + |name|, "is not set" + tail;
    var line := UNSET + name + ([' '] + after);
    assert Line(name, Tri(0)) + tail == line;
    Parts(UNSET, name, [' '] + after);
    UnsetPrefix(line);
    assert line[p] == line[p..][0];
    FindIs(line, ' ', 9, p);
    Split([' '], after);
    assert line[p + 1..] == line[p..][1..];
    Split("is not set", tail);
  }

  lemma UnsetCut(typeOf: string -> SymbolType, name: string, k: nat)
    requires GoodName(name) && k < |Line(name, Tri(0))|
    ensures ReadLine(typeOf, Line(name, Tri(0))[..k]) == Nothing
  {
    var full, p := Line(name, Tri(0)), 9 + |name|;
    var line := full[..k];
    assert full == UNSET + name + " is not set";
    CutParts(UNSET, name, " is not set", k);
    if 9 <= k <= p {
      FindIs(line, ' ', 9, k);
    } else if p < k {
      Parts(UNSET, name, " is not set"[..k - p]);
      assert line[p] == line[p..][0];
      FindIs(line, ' ', 9, p);
      assert |line[p + 1..]| < |"is not set"|;
    } else if k > 0 {
      assert line[0] == '#';
    }
  }

  /** What stands behind the equals sign. */
  function ValueText(v: Value): string {
    match v
    case Tri(t) => if t == 1 then "m" else "y"
    case Str(s) => "\"" + Escape(s) + "\""
  }

  lemma LineIsSetting(name: string, v: Value)
    requires v != Tri(0)
    ensures Line(name, v) == Setting(name, ValueText(v))
  {
    if v.Str? {
      assert "CONFIG_" + name + "=\"" + Escape(v.s) + "\"" == "CONFIG_" + name + "=" + ("\"" + Escape(v.s) + "\"");
    }
  }

  lemma ValueRead(typ: SymbolType, v: Value)
    requires GoodValue(typ, v) && v != Tri(0)
    ensures ReadValue(typ, ValueText(v)) == Some(v) && '\n' !in ValueText(v)
  {
    if v.Str? {
      RoundTrip(v.s, "");
      var p := ValueText(v);
      Associate(['"'], Escape(v.s), ['"']);
      Split(['"'], Escape(v.s) + ['"']);
      assert ['"'] + "" == ['"'];
      EscapeAddsNoNewline(v.s);
    }
  }

  lemma ValueCut(typ: SymbolType, v: Value, k: nat)
    requires GoodValue(typ, v) && v != Tri(0) && k < |ValueText(v)|
    ensures ReadValue(typ, ValueText(v)[..k]) == None && '\n' !in ValueText(v)[..k]
  {
    ValueRead(typ, v);
    if v.Str? && k > 0 {
      CutIsInvalid(v.s, k - 1);
      assert ValueText(v)[..k][1..] == Escape(v.s)[..k - 1];
    }
  }

  lemma WholeLine(typeOf: string -> SymbolType, name: string, v: Value, tail: string)
    requires GoodName(name) && GoodValue(typeOf(name), v) && (tail == "" || tail == "\n")
    ensures ReadLine(typeOf, Line(name, v) + tail) == Set(name, v)
  {
    if v == Tri(0) {
      UnsetRead(typeOf, name, tail);
    } else {
      LineIsSetting(name, v);
      ValueRead(typeOf(name), v);
      SettingRead(typeOf, name, ValueText(v), tail);
    }
  }

  lemma CutLine(typeOf: string -> SymbolType, name: string, v: Value, k: nat)
    requires GoodName(name) && GoodValue(typeOf(name), v) && k < |Line(name, v)|
    ensures ReadLine(typeOf, Line(name, v)[..k]) == Nothing
  {
    if v == Tri(0) {
      UnsetCut(typeOf, name, k);
    } else {
      LineIsSetting(name, v);
      var p := ValueText(v);
      if k <= 7 + |name| {
        SettingCut(typeOf, name, p, k);
      } else {
        var m := k - 8 - |name|;
        ValueCut(typeOf(name), v, m);
        assert Setting(name, p)[..k] == Setting(name, p[..m]) + "";
        SettingRead(typeOf, name, p[..m], "");
      }
    }
  }

  lemma LineHasNoNewline(typ: SymbolType, name: string, v: Value)
    requires GoodName(name) && GoodValue(typ, v)
    ensures '\n' !in Line(name, v)
  {
    if v != Tri(0) {
      LineIsSetting(name, v);
      ValueRead(typ, v);
    }
  }

  /**
   A line that was written is read back exactly when it fits the buffer. The beginning of a longer one
   assigns nothing; its rest is read as further lines.
   */
  lemma LineExact(typeOf: string -> SymbolType, name: string, v: Value, rest: string)
    requires GoodName(name) && GoodValue(typeOf(name), v)
    ensures var text := Line(name, v) + "\n" + rest;
            && ReadLine(typeOf, text[..Fgets(text)]) == (if |Line(name, v)| < LINE_SIZE then Set(name, v) else Nothing)
            && (|Line(name, v)| + 1 < LINE_SIZE ==> text[Fgets(text)..] == rest)
            && (|Line(name, v)| + 1 == LINE_SIZE ==> text[Fgets(text)..] == "\n" + rest)
            && (|Line(name, v)| >= LINE_SIZE ==> text[Fgets(text)..] == Line(name, v)[LINE_SIZE - 1..] + "\n" + rest)
  {
    var l := Line(name, v);
    var text := l + "\n" + rest;
    LineHasNoNewline(typeOf(name), name, v);
    assert text[0..|l|] == l;
    FindIs(text, '\n', 0, |l|);
    if |l| + 1 < LINE_SIZE {
      assert text[..|l| + 1] == l + "\n";
      WholeLine(typeOf, name, v, "\n");
    } else if |l| + 1 == LINE_SIZE {
      assert text[..|l|] == l + "";
      WholeLine(typeOf, name, v, "");
    } else {
      assert text[..LINE_SIZE - 1] == l[..LINE_SIZE - 1];
      assert text[LINE_SIZE - 1..] == l[LINE_SIZE - 1..] + "\n" + rest;
      CutLine(typeOf, name, v, LINE_SIZE - 1);
    }
  }

  // ---- files ----

  function WriteFile(entries: seq<(string, Value)>): string {
    if entries == [] then "" else Line(entries[0].0, entries[0].1) + "\n" + WriteFile(entries[1..])
  }

  function ReadFile(typeOf: string -> SymbolType, text: string): seq<(string, Value)>
    decreases |text|
  {
    if text == "" then []
    else
      var n := Fgets(text);
      var rest := ReadFile(typeOf, text[n..]);
      match ReadLine(typeOf, text[..n])
      case Set(name, v) => [(name, v)] + rest
      case Nothing => rest
  }

  lemma EmptyLine(typeOf: string -> SymbolType, rest: string)
    ensures ReadFile(typeOf, "\n" + rest) == ReadFile(typeOf, rest)
  {
    var text := "\n" + rest;
    FindIs(text, '\n', 0, 0);
    assert text[..1] == "\n" && text[1..] == rest;
  }

  predicate Good(typeOf: string -> SymbolType, e: (string, Value)) {
    GoodName(e.0) && GoodValue(typeOf(e.0), e.1)
  }

  predicate Fits(e: (string, Value)) {
    |Line(e.0, e.1)| < LINE_SIZE
  }

  lemma ReadFirst(typeOf: string -> SymbolType, e: (string, Value), rest: string)
    requires Good(typeOf, e) && Fits(e)
    ensures ReadFile(typeOf, Line(e.0, e.1) + "\n" + rest) == [e] + ReadFile(typeOf, rest)
  {
    LineExact(typeOf, e.0, e.1, rest);
    EmptyLine(typeOf, rest);
  }

  lemma {:induction false} FileRoundTrip(typeOf: string -> SymbolType, entries: seq<(string, Value)>)
    requires forall e :: e in entries ==> Good(typeOf, e) && Fits(e)
    ensures ReadFile(typeOf, WriteFile(entries)) == entries
  {
    if entries != [] {
      assert entries[0] in entries;
      FileRoundTrip(typeOf, entries[1..]);
      ReadFirst(typeOf, entries[0], WriteFile(entries[1..]));
      assert entries == [entries[0]] + entries[1..];
    }
  }

  /** Escaping again what was read takes no more room than it took. */
  lemma {:induction false} EscapeShrinks(t: string)
    requires Unescape(t).Some?
    ensures |Escape(Unescape(t).value)| + 1 <= |t|
    decreases |t|
  {
    if t[0] == '"' {
    } else if t[0] != '\\' {
      EscapeShrinks(t[1..]);
      Split([t[0]], Unescape(t[1..]).value);
    } else {
      EscapeShrinks(t[2..]);
      Split([t[1]], Unescape(t[2..]).value);
    }
  }

  /** The line of what was read is no longer than what it was read from, unless that ended in `=n`. */
  lemma ReadLineFits(typeOf: string -> SymbolType, line: string, name: string, v: Value)
    requires ReadLine(typeOf, line) == Set(name, v)
    requires v != Tri(0) || '=' !in line
    ensures |Line(name, v)| <= |line|
  {
    if line[0] == 'C' {
      var q := Find(line, '=', 7);
      assert line[q] == '=';
      var p := line[q + 1..Find(line, '\n', q + 1)];
      if v.Str? {
        EscapeShrinks(p[1..]);
      }
    }
  }

  /** Whatever a file contains, only an n can be read whose line would not fit. */
  lemma {:induction false} ReadFits(typeOf: string -> SymbolType, text: string, e: (string, Value))
    requires e in ReadFile(typeOf, text) && e.1 != Tri(0)
    ensures Fits(e)
    decreases |text|
  {
    var n := Fgets(text);
    var a := ReadLine(typeOf, text[..n]);
    if a == Set(e.0, e.1) {
      ReadLineFits(typeOf, text[..n], e.0, e.1);
    } else {
      ReadFits(typeOf, text[n..], e);
    }
  }

  /** Nothing that is read from a line without an equals sign, and from what follows, is too long. */
  lemma {:induction false} NoEqualsFits(typeOf: string -> SymbolType, l: string, rest: string, e: (string, Value))
    requires '=' !in l && '\n' !in l && e in ReadFile(typeOf, l + ("\n" + rest))
    ensures Fits(e) || e in ReadFile(typeOf, rest)
    decreases |l|
  {
    var text := l + ("\n" + rest);
    Split(l, "\n" + rest);
    assert text[|l|] == text[|l|..][0];
    assert text[0..|l|] == l;
    FindIs(text, '\n', 0, |l|);
    var n := Fgets(text);
    var line := text[..n];
    if n == |l| + 1 {
      Associate(l, "\n", rest);
      Split(l + "\n", rest);
    } else {
      assert line == l[..n] && text[n..] == l[n..] + ("\n" + rest);
    }
    if ReadLine(typeOf, line) == Set(e.0, e.1) {
      ReadLineFits(typeOf, line, e.0, e.1);
    } else if n <= |l| {
      NoEqualsFits(typeOf, l[n..], rest, e);
    }
  }

  lemma UnsetPlain(name: string)
    requires GoodName(name)
    ensures '=' !in Line(name, Tri(0)) && '\n' !in Line(name, Tri(0))
  {
  }

  lemma UnsetTooLong(typeOf: string -> SymbolType, name: string, rest: string, e: (string, Value))
    requires GoodName(name) && e in ReadFile(typeOf, Line(name, Tri(0)) + "\n" + rest)
    ensures Fits(e) || e in ReadFile(typeOf, rest)
  {
    UnsetPlain(name);
    Associate(Line(name, Tri(0)), "\n", rest);
    NoEqualsFits(typeOf, Line(name, Tri(0)), rest, e);
  }

  /** If only lines of n are too long, nothing is read whose line would not fit. */
  lemma {:induction false} OnlyUnsetTooLong(typeOf: string -> SymbolType, entries: seq<(string, Value)>,
                                            e: (string, Value))
    requires forall x :: x in entries ==> Good(typeOf, x) && (Fits(x) || x.1 == Tri(0))
    requires e in ReadFile(typeOf, WriteFile(entries))
    ensures Fits(e)
  {
    var first, rest := entries[0], WriteFile(entries[1..]);
    assert first in entries;
    if Fits(first) {
      ReadFirst(typeOf, first, rest);
    } else {
      UnsetTooLong(typeOf, first.0, rest, e);
    }
    if !Fits(e) { OnlyUnsetTooLong(typeOf, entries[1..], e); }
  }

  lemma AllReadBack(typeOf: string -> SymbolType, entries: seq<(string, Value)>)
    requires forall e :: e in entries ==> Good(typeOf, e) && e in ReadFile(typeOf, WriteFile(entries))
    ensures forall e :: e in entries ==> Fits(e)
  {
    var text := WriteFile(entries);
    forall e | e in entries ensures Fits(e) || e.1 == Tri(0) {
      if e.1 != Tri(0) { ReadFits(typeOf, text, e); }
    }
    forall e | e in entries ensures Fits(e) { OnlyUnsetTooLong(typeOf, entries, e); }
  }

  /** A file is read back as it was written exactly when all its lines fit the buffer. */
  lemma FileExact(typeOf: string -> SymbolType, entries: seq<(string, Value)>)
    requires forall e :: e in entries ==> Good(typeOf, e)
    ensures ReadFile(typeOf, WriteFile(entries)) == entries <==> forall e :: e in entries ==> Fits(e)
  {
    if ReadFile(typeOf, WriteFile(entries)) == entries {
      AllReadBack(typeOf, entries);
    }
    if forall e :: e in entries ==> Fits(e) {
      FileRoundTrip(typeOf, entries);
    }
  }

  /** The values the symbols get: a symbol that has one is not assigned again. */
  function Assigned(list: seq<(string, Value)>): map<string, Value> {
    if list == [] then map[] else Assigned(list[1..])[list[0].0 := list[0].1]
  }

  lemma {:induction false} AssignedFrom(list: seq<(string, Value)>, name: string)
    ensures name in Assigned(list) ==> (name, Assigned(list)[name]) in list
  {
    if list != [] {
      AssignedFrom(list[1..], name);
    }
  }

  lemma {:induction false} AssignedAll(list: seq<(string, Value)>, e: (string, Value))
    requires e in list && forall i, j :: 0 <= i < j < |list| ==> list[i].0 != list[j].0
    ensures e.0 in Assigned(list) && Assigned(list)[e.0] == e.1
  {
    if e != list[0] {
      AssignedAll(list[1..], e);
      var k :| 0 <= k < |list[1..]| && list[1..][k] == e;
      assert list[k + 1].0 != list[0].0;
    }
  }

  /** All symbols get their values back exactly when all lines fit, each symbol being written once. */
  lemma ValuesExact(typeOf: string -> SymbolType, entries: seq<(string, Value)>)
    requires forall e :: e in entries ==> Good(typeOf, e)
    requires forall i, j :: 0 <= i < j < |entries| ==> entries[i].0 != entries[j].0
    ensures Assigned(ReadFile(typeOf, WriteFile(entries))) == Assigned(entries)
            <==> forall e :: e in entries ==> Fits(e)
  {
    var list := ReadFile(typeOf, WriteFile(entries));
    if Assigned(list) == Assigned(entries) {
      forall e | e in entries ensures e in list {
        AssignedAll(entries, e);
        AssignedFrom(list, e.0);
      }
      AllReadBack(typeOf, entries);
    }
    if forall e :: e in entries ==> Fits(e) {
      FileRoundTrip(typeOf, entries);
    }
  }

  // ---- settings by hand: `=n`, and several lines for one symbol ----

  /** The values of a boolean or tristate symbol by the letter behind the equals sign. */
  function Letters(typ: SymbolType): map<char, nat> {
    if typ == Tristate then map['y' := 2, 'm' := 1, 'n' := 0] else map['y' := 2, 'n' := 0]
  }

  /** What a setting assigns; only its first letter matters unless the symbol is a string. */
  function Meaning(typ: SymbolType, p: string): Option<Value> {
    if typ == Text then ReadValue(typ, p)
    else if p != "" && p[0] in Letters(typ) then Some(Tri(Letters(typ)[p[0]]))
    else None
  }

  /** The text of a file of settings, one a line. */
  function SettingsText(lines: seq<(string, string)>): string {
    if lines == [] then "" else Setting(lines[0].0, lines[0].1) + "\n" + SettingsText(lines[1..])
  }

  predicate GoodSetting(l: (string, string)) {
    GoodName(l.0) && '\n' !in l.1 && |Setting(l.0, l.1)| < LINE_SIZE
  }

  function Assign(a: Assignment, others: seq<(string, Value)>): seq<(string, Value)> {
    match a
    case Set(name, v) => [(name, v)] + others
    case Nothing => others
  }

  lemma ReadTurn(typeOf: string -> SymbolType, text: string, n: nat, a: Assignment)
    requires text != "" && Fgets(text) == n && ReadLine(typeOf, text[..n]) == a
    ensures ReadFile(typeOf, text) == Assign(a, ReadFile(typeOf, text[n..]))
  {
  }

  /** A line that fits is read by itself, also when its newline is left for the next turn. */
  lemma ShortLine(typeOf: string -> SymbolType, l: string, rest: string, a: Assignment)
    requires '\n' !in l && 0 < |l| < LINE_SIZE && ReadLine(typeOf, l) == a && ReadLine(typeOf, l + "\n") == a
    ensures ReadFile(typeOf, l + "\n" + rest) == Assign(a, ReadFile(typeOf, rest))
  {
    var text, n := l + "\n" + rest, |l|;
    assert text[0..n] == l && text[n] == '\n';
    FindIs(text, '\n', 0, n);
    if n + 1 < LINE_SIZE {
      assert text[..n + 1] == l + "\n" && text[n + 1..] == rest;
      ReadTurn(typeOf, text, n + 1, a);
    } else {
      assert text[..n] == l && text[n..] == "\n" + rest;
      ReadTurn(typeOf, text, n, a);
      EmptyLine(typeOf, rest);
    }
  }

  function Setter(name: string, v: Option<Value>): Assignment {
    if v.Some? then Set(name, v.value) else Nothing
  }

  lemma SettingFirst(typeOf: string -> SymbolType, name: string, p: string, rest: string)
    requires GoodSetting((name, p))
    ensures ReadFile(typeOf, Setting(name, p) + "\n" + rest)
         == Assign(Setter(name, Meaning(typeOf(name), p)), ReadFile(typeOf, rest))
  {
    var l := Setting(name, p);
    assert l + "" == l;
    SettingAssigns(typeOf, name, p, "");
    SettingAssigns(typeOf, name, p, "\n");
    ShortLine(typeOf, l, rest, Setter(name, Meaning(typeOf(name), p)));
  }

  lemma SettingAssigns(typeOf: string -> SymbolType, name: string, p: string, tail: string)
    requires GoodSetting((name, p)) && (tail == "" || tail == "\n")
    ensures ReadLine(typeOf, Setting(name, p) + tail) == Setter(name, Meaning(typeOf(name), p))
  {
    SettingRead(typeOf, name, p, tail);
    LettersRead(typeOf(name), p);
  }

  lemma LettersRead(typ: SymbolType, p: string)
    ensures ReadValue(typ, p) == Meaning(typ, p)
  {
  }

  lemma AssignedFirst(a: Assignment, others: seq<(string, Value)>)
    ensures Assigned(Assign(a, others)) == if a.Set? then Assigned(others)[a.name := a.v] else Assigned(others)
  {
    if a.Set? { assert ([(a.name, a.v)] + others)[1..] == others; }
  }

  /** The first setting of a file, and the others. */
  lemma FirstSetting(typeOf: string -> SymbolType, lines: seq<(string, string)>)
    requires lines != [] && GoodSetting(lines[0])
    ensures var v := Meaning(typeOf(lines[0].0), lines[0].1);
            var others := Assigned(ReadFile(typeOf, SettingsText(lines[1..])));
            Assigned(ReadFile(typeOf, SettingsText(lines)))
            == if v.Some? then others[lines[0].0 := v.value] else others
  {
    var l, rest := lines[0], SettingsText(lines[1..]);
    SettingFirst(typeOf, l.0, l.1, rest);
    AssignedFirst(Setter(l.0, Meaning(typeOf(l.0), l.1)), ReadFile(typeOf, rest));
  }

  /** Line i gives `name` a value and no line before it does. */
  predicate Decides(typeOf: string -> SymbolType, lines: seq<(string, string)>, i: nat, name: string) {
    && i < |lines| && lines[i].0 == name && Meaning(typeOf(name), lines[i].1).Some?
    && forall j :: 0 <= j < i ==> lines[j].0 != name || Meaning(typeOf(name), lines[j].1).None?
  }

  lemma DecidesNext(typeOf: string -> SymbolType, lines: seq<(string, string)>, i: nat, name: string)
    requires Decides(typeOf, lines, i, name) && i > 0
    ensures Decides(typeOf, lines[1..], i - 1, name) && lines[1..][i - 1] == lines[i]
    ensures lines[0].0 != name || Meaning(typeOf(name), lines[0].1).None?
  {
    forall j | 0 <= j < i - 1 ensures lines[1..][j].0 != name || Meaning(typeOf(name), lines[1..][j].1).None? {
      assert lines[1..][j] == lines[j + 1];
    }
  }

  /** The values of the symbols, line by line. */
  function Settings(typeOf: string -> SymbolType, lines: seq<(string, string)>): map<string, Value> {
    if lines == [] then map[]
    else
      var v, others := Meaning(typeOf(lines[0].0), lines[0].1), Settings(typeOf, lines[1..]);
      if v.Some? then others[lines[0].0 := v.value] else others
  }

  lemma {:induction false} SettingsRead(typeOf: string -> SymbolType, lines: seq<(string, string)>)
    requires forall j :: 0 <= j < |lines| ==> GoodSetting(lines[j])
    ensures Assigned(ReadFile(typeOf, SettingsText(lines))) == Settings(typeOf, lines)
  {
    if lines != [] {
      FirstSetting(typeOf, lines);
      SettingsRead(typeOf, lines[1..]);
    }
  }

  lemma {:induction false} SettingDecides(typeOf: string -> SymbolType, lines: seq<(string, string)>, i: nat,
                                          name: string)
    requires Decides(typeOf, lines, i, name)
    ensures name in Settings(typeOf, lines)
    ensures Some(Settings(typeOf, lines)[name]) == Meaning(typeOf(name), lines[i].1)
  {
    if i > 0 {
      DecidesNext(typeOf, lines, i, name);
      SettingDecides(typeOf, lines[1..], i - 1, name);
    }
  }

  lemma {:induction false} SettingDecided(typeOf: string -> SymbolType, lines: seq<(string, string)>, name: string)
    returns (i: nat)
    requires name in Settings(typeOf, lines)
    ensures Decides(typeOf, lines, i, name)
  {
    i := 0;
    if !Decides(typeOf, lines, 0, name) {
      var k := SettingDecided(typeOf, lines[1..], name);
      i := k + 1;
      forall j | 0 <= j < i ensures lines[j].0 != name || Meaning(typeOf(name), lines[j].1).None? {
        if j > 0 { assert lines[j] == lines[1..][j - 1]; }
      }
    }
  }

  /** Of several settings of a symbol the first one that can be read wins, `=n` among them; without one it has none. */
  lemma FirstWins(typeOf: string -> SymbolType, lines: seq<(string, string)>, name: string)
    requires forall j :: 0 <= j < |lines| ==> GoodSetting(lines[j])
    ensures var values := Assigned(ReadFile(typeOf, SettingsText(lines)));
            && (name in values <==> exists i: nat :: Decides(typeOf, lines, i, name))
            && forall i: nat :: Decides(typeOf, lines, i, name) ==>
                 Some(values[name]) == Meaning(typeOf(name), lines[i].1)
  {
    SettingsRead(typeOf, lines);
    var values := Settings(typeOf, lines);
    forall i: nat | Decides(typeOf, lines, i, name)
      ensures name in values && Some(values[name]) == Meaning(typeOf(name), lines[i].1)
    {
      SettingDecides(typeOf, lines, i, name);
    }
    if name in values { var i := SettingDecided(typeOf, lines, name); }
  }

  // ---- a line that does not fit ----

  lemma {:induction false} EscapePlain(s: string)
    requires forall i :: 0 <= i < |s| ==> !Special(s[i])
    ensures Escape(s) == s
  {
    if s != "" {
      EscapePlain(s[1..]);
      assert s == [s[0]] + s[1..];
    }
  }

  lemma TailRead(typeOf: string -> SymbolType)
    requires typeOf("B") != Text
    ensures ReadFile(typeOf, "CONFIG_B=y\"\n") == [("B", Tri(2))]
  {
    var e := "CONFIG_B=y\"\n";
    FindIs(e, '\n', 0, 11);
    assert e[..12] == e && e[12..] == "";
    assert e == Setting("B", "y\"") + "\n";
    SettingRead(typeOf, "B", "y\"", "\n");
  }

  lemma WriteOne(e: (string, Value))
    ensures WriteFile([e]) == Line(e.0, e.1) + "\n" + ""
  {
    var entries := [e];
    assert entries[0] == e && entries[1..] == [];
    assert WriteFile(entries[1..]) == "";
  }

  lemma ReadStep(typeOf: string -> SymbolType, text: string, n: nat)
    requires text != "" && Fgets(text) == n && ReadLine(typeOf, text[..n]) == Nothing
    ensures ReadFile(typeOf, text) == ReadFile(typeOf, text[n..])
  {
  }

  /** What precedes the end of a line too long is read as nothing. */
  lemma HeadRead(typeOf: string -> SymbolType, name: string, v: Value, head: string, tail: string)
    requires GoodName(name) && GoodValue(typeOf(name), v)
    requires Line(name, v) + "\n" == head + tail && |head| == LINE_SIZE - 1 && |tail| > 1
    ensures ReadFile(typeOf, Line(name, v) + "\n" + "") == ReadFile(typeOf, tail)
  {
    var l := Line(name, v);
    var text := l + "\n" + "";
    LineExact(typeOf, name, v, "");
    LineHasNoNewline(typeOf(name), name, v);
    assert text[0..|l|] == l;
    FindIs(text, '\n', 0, |l|);
    assert text == head + tail;
    Split(head, tail);
    ReadStep(typeOf, text, LINE_SIZE - 1);
  }

  function Filler(): (s: string)
    ensures |s| == 1013
  {
    seq(1013, i => 'x')
  }

  lemma LongLineIs(fill: string, s: string, head: string, tail: string)
    requires s == fill + "CONFIG_B=y" && Escape(s) == s
    requires head == "CONFIG_A=\"" + fill && tail == "CONFIG_B=y\"\n"
    ensures Line("A", Str(s)) + "\n" == head + tail
  {
    assert "CONFIG_" + "A" + "=\"" == "CONFIG_A=\"";
    assert "CONFIG_B=y" + "\"" + "\n" == tail;
    assert "CONFIG_A=\"" + s + "\"" + "\n" == head + ("CONFIG_B=y" + "\"" + "\n");
  }

  /** The end of a string value can be read as an assignment to another symbol. */
  lemma LongLineRead(typeOf: string -> SymbolType)
    requires typeOf("A") == Text && typeOf("B") != Text
    ensures ReadFile(typeOf, WriteFile([("A", Str(Filler() + "CONFIG_B=y"))])) == [("B", Tri(2))]
  {
    var s := Filler() + "CONFIG_B=y";
    EscapePlain(s);
    var head, tail := "CONFIG_A=\"" + Filler(), "CONFIG_B=y\"\n";
    LongLineIs(Filler(), s, head, tail);
    WriteOne(("A", Str(s)));
    HeadRead(typeOf, "A", Str(s), head, tail);
    TailRead(typeOf);
  }
}
