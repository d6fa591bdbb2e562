/** Characters and strings in the C locale. */
module Text {

  predicate IsSpace(c: char) { c == ' ' || '\t' <= c <= '\r' }

  function ToLower(c: char): char {
    if 'A' <= c <= 'Z' then (c as int + 32) as char else c
  }

  function Normalized(s: string): string {
    seq(|s|, i requires 0 <= i < |s| => ToLower(s[i]))
  }

  // The index of the first occurrence, or the length when there is none.
  function Find(s: string, c: char): (n: nat)
    ensures n <= |s|
  {
    if s == [] || s[0] == c then 0 else 1 + Find(s[1..], c)
  }

  lemma {:induction false} FindExactly(s: string, c: char, n: nat)
    ensures Find(s, c) == n <==> n <= |s| && (forall i :: 0 <= i < n ==> s[i] != c) && (n < |s| ==> s[n] == c)
  {
    if s != [] && s[0] != c {
      if n > 0 {
        FindExactly(s[1..], c, n - 1);
        assert forall i :: 0 <= i < |s| - 1 ==> s[1..][i] == s[i + 1];
        assert (forall i :: 0 <= i < n && i < |s| ==> s[i] != c) <==>
               (forall i :: 0 <= i < n - 1 && i < |s| - 1 ==> s[1..][i] != c) by {
          assert forall i :: 0 < i < |s| ==> s[i] == s[1..][i - 1];
        }
      }
    }
  }

  function TrimLeft(s: string): string {
    if s != [] && IsSpace(s[0]) then TrimLeft(s[1..]) else s
  }

  function TrimRight(s: string): string {
    if s != [] && IsSpace(s[|s| - 1]) then TrimRight(s[..|s| - 1]) else s
  }

  function Trim(s: string): string { TrimRight(TrimLeft(s)) }

  predicate Trimmed(s: string) {
    s == [] || (!IsSpace(s[0]) && !IsSpace(s[|s| - 1]))
  }

  lemma {:induction false} TrimLeftFacts(s: string)
    ensures forall c :: c in TrimLeft(s) ==> c in s
    ensures TrimLeft(s) != [] ==> !IsSpace(TrimLeft(s)[0])
  {
    if s != [] && IsSpace(s[0]) {
      TrimLeftFacts(s[1..]);
    }
  }

  lemma {:induction false} TrimRightFacts(s: string)
    ensures forall c :: c in TrimRight(s) ==> c in s
    ensures TrimRight(s) != [] ==> !IsSpace(TrimRight(s)[|TrimRight(s)| - 1])
  {
    if s != [] && IsSpace(s[|s| - 1]) {
      TrimRightFacts(s[..|s| - 1]);
    }
  }

  /** Trimming takes white space off both ends and nothing else. */
  lemma {:induction false} TrimFacts(s: string)
    ensures Trimmed(Trim(s))
    ensures forall c :: c in Trim(s) ==> c in s
    ensures Trimmed(s) ==> Trim(s) == s
    ensures s != [] && !IsSpace(s[0]) ==> Trim(s) != [] && Trim(s)[0] == s[0]
    ensures s != [] && !IsSpace(s[|s| - 1]) ==> Trim(s) != [] && Trim(s)[|Trim(s)| - 1] == s[|s| - 1]
  {
    TrimLeftFacts(s);
    TrimRightFacts(TrimLeft(s));
    TrimRightKeepsFirst(TrimLeft(s));
    TrimLeftKeepsLast(s);
  }

  lemma {:induction false} TrimRightKeepsFirst(s: string)
    ensures s != [] && !IsSpace(s[0]) ==> TrimRight(s) != [] && TrimRight(s)[0] == s[0]
  {
    if s != [] && IsSpace(s[|s| - 1]) {
      TrimRightKeepsFirst(s[..|s| - 1]);
    }
  }

  lemma {:induction false} TrimLeftKeepsLast(s: string)
    ensures s != [] && !IsSpace(s[|s| - 1]) ==> TrimLeft(s) != [] && TrimLeft(s)[|TrimLeft(s)| - 1] == s[|s| - 1]
  {
    if s != [] && IsSpace(s[0]) {
      TrimLeftKeepsLast(s[1..]);
    }
  }

  method TrimView(s: string) returns (t: string)
    ensures t == Trim(s)
  {
    t := s;
    while t != [] && IsSpace(t[0])
      invariant TrimLeft(t) == TrimLeft(s)
    {
      t := t[1..];
    }
    while t != [] && IsSpace(t[|t| - 1])
      invariant TrimRight(t) == TrimRight(TrimLeft(s))
    {
      t := t[..|t| - 1];
    }
  }

  // Blank, tab, line feed, vertical tab, form feed, carriage return, by their codes.
  predicate White(s: string) { forall k :: 0 <= k < |s| ==> s[k] as int in {32, 9, 10, 11, 12, 13} }

  lemma {:induction false} SpaceByCode(c: char)
    ensures IsSpace(c) <==> c as int in {32, 9, 10, 11, 12, 13}
  {}

  lemma {:induction false} TrimLeftSkips(a: string, s: string)
    requires White(a)
    ensures TrimLeft(a + s) == TrimLeft(s)
  {
    if a == [] {
      assert a + s == s;
    } else {
      SpaceByCode(a[0]);
      assert (a + s)[1..] == a[1..] + s;
      TrimLeftSkips(a[1..], s);
    }
  }

  lemma {:induction false} TrimRightSkips(s: string, b: string)
    requires White(b)
    ensures TrimRight(s + b) == TrimRight(s)
  {
    if b == [] {
      assert s + b == s;
    } else {
      SpaceByCode(b[|b| - 1]);
      assert (s + b)[..|s + b| - 1] == s + b[..|b| - 1];
      TrimRightSkips(s, b[..|b| - 1]);
    }
  }

  // What follows a character that is not white space is not trimmed from the left.
  lemma {:induction false} TrimLeftStops(s: string, b: string)
    ensures TrimLeft(s + b) == if TrimLeft(s) == [] then TrimLeft(b) else TrimLeft(s) + b
  {
    if s == [] {
      assert s + b == b;
    } else {
      assert (s + b)[0] == s[0] && (s + b)[1..] == s[1..] + b;
      if IsSpace(s[0]) {
        TrimLeftStops(s[1..], b);
      }
    }
  }

  /** White space on either side is trimmed away, however much of it and of whichever of the six kinds. */
  lemma {:induction false} TrimSkips(a: string, s: string, b: string)
    requires White(a) && White(b)
    ensures Trim(a + s + b) == Trim(s)
  {
    assert a + s + b == a + (s + b);
    TrimLeftSkips(a, s + b);
    TrimLeftStops(s, b);
    if TrimLeft(s) == [] {
      TrimLeftSkips(b, []);
      assert b + [] == b;
    } else {
      TrimRightSkips(TrimLeft(s), b);
    }
  }

  lemma {:induction false} TrimLeftCuts(s: string) returns (a: string)
    ensures White(a) && s == a + TrimLeft(s)
  {
    a := [];
    if s != [] && IsSpace(s[0]) {
      SpaceByCode(s[0]);
      var more := TrimLeftCuts(s[1..]);
      a := [s[0]] + more;
    }
  }

  lemma {:induction false} TrimRightCuts(s: string) returns (b: string)
    ensures White(b) && s == TrimRight(s) + b
  {
    b := [];
    if s != [] && IsSpace(s[|s| - 1]) {
      SpaceByCode(s[|s| - 1]);
      var more := TrimRightCuts(s[..|s| - 1]);
      b := more + [s[|s| - 1]];
    }
  }

  /** Nothing but white space is trimmed away. */
  lemma {:induction false} TrimCuts(s: string) returns (a: string, b: string)
    ensures White(a) && White(b) && s == a + Trim(s) + b
  {
    a := TrimLeftCuts(s);
    b := TrimRightCuts(TrimLeft(s));
  }

  /** A carriage return at the end of a line is trimmed away. */
  lemma {:induction false} TrimBeforeReturn(s: string)
    ensures Trim(s + ['\r']) == Trim(s)
  {
    TrimSkips([], s, ['\r']);
    assert [] + s + ['\r'] == s + ['\r'];
  }

  /** Normalising turns capitals into small letters and changes nothing else. */
  lemma {:induction false} NormalizedByCode(s: string, k: nat)
    requires k < |s|
    ensures |Normalized(s)| == |s|
    ensures Normalized(s)[k] as int == if 65 <= s[k] as int <= 90 then s[k] as int + 32 else s[k] as int
  {}
}
