/** Backslash quoting on the NSH command line: three scanners that must agree on
    which characters are quoted, and the in-place removal of the quotes. */
module NshQuote {
  import opened Common

  const BACKSLASH := '\\'
  const BACKQUOTE := '`'

  /** Character `i` is quoted: an unquoted backslash is before it. */
  predicate Quoted(s: string, i: nat)
    requires i <= |s|
  {
    i > 0 && s[i - 1] == BACKSLASH && !Quoted(s, i - 1)
  }

  // ----- nsh_strchr -----

  /** The first unquoted `ch`; a backslash is never found, since an unquoted one
      only quotes what follows. */
  method StrChr(s: string, ch: char) returns (at: int)
    requires NUL !in s
    ensures -1 <= at <= |s|
    ensures at >= 0 ==> CharAt(s, at) == ch != BACKSLASH && !Quoted(s, at)
    ensures forall i :: 0 <= i < (if at < 0 then |s| + 1 else at) ==>
              CharAt(s, i) != ch || ch == BACKSLASH || Quoted(s, i)
  {
    var quoted := false;
    at := 0;
    while true
      invariant 0 <= at <= |s| && quoted == Quoted(s, at)
      invariant forall i :: 0 <= i < at ==> CharAt(s, i) != ch || ch == BACKSLASH || Quoted(s, i)
      decreases |s| - at
    {
      if CharAt(s, at) == BACKSLASH && !quoted {
        quoted := true;
      } else if CharAt(s, at) == ch && !quoted {
        return;
      } else if CharAt(s, at) == NUL {
        return -1;
      } else {
        quoted := false;
      }
      at := at + 1;
    }
  }

  // ----- the scan for the end of an argument -----

  /** Character `i` is inside a back-quoted command. */
  predicate BackQuoted(s: string, i: nat)
    requires i <= |s|
  {
    i > 0 && BackQuoted(s, i - 1) != (s[i - 1] == BACKQUOTE && !Quoted(s, i - 1))
  }

  predicate Delimits(s: string, i: nat, term: string)
    requires i < |s|
  {
    && s[i] in term && s[i] != BACKSLASH && s[i] != BACKQUOTE
    && !Quoted(s, i) && !BackQuoted(s, i)
  }

  /** The unquoted back-quotes before a position. */
  ghost function Ticks(s: string, i: nat): set<nat>
    requires i <= |s|
  {
    set k: nat | k < i && s[k] == '`' && !Quoted(s, k)
  }

  /** A position is inside back-quotes if and only if an odd number of unquoted ones is
      before it. */
  lemma {:induction false} BackQuotedIff(s: string, i: nat)
    requires i <= |s|
    ensures BackQuoted(s, i) <==> |Ticks(s, i)| % 2 == 1
  {
    if i > 0 {
      BackQuotedIff(s, i - 1);
      if s[i - 1] == '`' && !Quoted(s, i - 1) {
        assert Ticks(s, i) == Ticks(s, i - 1) + {i - 1};
      } else {
        assert Ticks(s, i) == Ticks(s, i - 1);
      }
    }
  }

  /** A character delimits if it is a terminator, neither quoted nor inside back-quotes;
      the two quoting characters never do. */
  lemma DelimitsIff(s: string, i: nat, term: string)
    requires i < |s|
    ensures Delimits(s, i, term) <==>
              s[i] in term && s[i] != '\\' && s[i] != '`' && !Quoted(s, i) && |Ticks(s, i)| % 2 == 0
  {
    BackQuotedIff(s, i);
  }

  /** The first delimiter that is neither quoted nor inside back-quotes, or else
      the end of the string. */
  method ArgumentEnd(s: string, term: string) returns (pend: nat)
    requires NUL !in s && NUL !in term && BACKSLASH !in term
    ensures pend <= |s| && (pend < |s| ==> Delimits(s, pend, term))
    ensures forall i :: 0 <= i < pend ==> !Delimits(s, i, term)
  {
    var quoted, backquote := false, false;
    pend := 0;
    while pend < |s|
      invariant pend <= |s| && backquote == BackQuoted(s, pend)
      invariant pend > 0 ==> quoted == Quoted(s, pend - 1)
      invariant forall i :: 0 <= i < pend ==> !Delimits(s, i, term)
    {
      if pend > 0 && s[pend - 1] == BACKSLASH && !quoted {
        quoted := true;
      } else {
        quoted := false;
        if s[pend] != BACKSLASH {
          if s[pend] == BACKQUOTE {
            backquote := !backquote;
          } else if !backquote {
            var delim := StrChr(term, s[pend]);
            PlainIsUnquoted(term);
            if delim >= 0 {
              break;
            }
            assert forall i :: 0 <= i < |term| ==> term[i] == CharAt(term, i) != s[pend];
          }
        }
      }
      pend := pend + 1;
    }
  }

  lemma PlainIsUnquoted(s: string)
    requires BACKSLASH !in s
    ensures forall i :: 0 <= i <= |s| ==> !Quoted(s, i)
  {
  }

  // ----- the scan for the next expansion -----

  /** The number of backslashes just before position `i`. */
  function Backslashes(s: string, i: nat): (n: nat)
    requires i <= |s|
    ensures n <= i
  {
    if i > 0 && s[i - 1] == BACKSLASH then 1 + Backslashes(s, i - 1) else 0
  }

  /** Looking forward and counting backwards agree everywhere. */
  lemma {:induction false} QuotedIsParity(s: string, i: nat)
    requires i <= |s|
    ensures Quoted(s, i) <==> Backslashes(s, i) % 2 == 1
  {
    if i > 0 {
      QuotedIsParity(s, i - 1);
    }
  }

  /** In other words: a position is quoted if and only if the run of backslashes that ends
      just before it has odd length. */
  lemma QuotedIff(s: string, i: nat, n: nat)
    requires n <= i <= |s| && (forall k :: i - n <= k < i ==> s[k] == BACKSLASH) && (n < i ==> s[i - n - 1] != BACKSLASH)
    ensures Quoted(s, i) <==> n % 2 == 1
  {
    QuotedIsParity(s, i);
    RunLength(s, i, n);
  }

  lemma {:induction false} RunLength(s: string, i: nat, n: nat)
    requires n <= i <= |s| && (forall k :: i - n <= k < i ==> s[k] == BACKSLASH) && (n < i ==> s[i - n - 1] != BACKSLASH)
    ensures Backslashes(s, i) == n
  {
    if n > 0 {
      RunLength(s, i - 1, n - 1);
    }
  }

  /** Whether the character after `s[..len]` is quoted, counting backwards. */
  method QuotedBackward(s: string, len: nat) returns (quoted: bool)
    requires len <= |s|
    ensures quoted == Quoted(s, len)
  {
    quoted := false;
    var bcount := 0;
    while bcount < len && s[len - 1 - bcount] == BACKSLASH
      invariant bcount <= len && quoted == (bcount % 2 == 1)
      invariant Backslashes(s, len) == bcount + Backslashes(s, len - bcount)
    {
      quoted := !quoted;
      bcount := bcount + 1;
    }
    QuotedIsParity(s, len);
  }

  /** The number of characters from `from` on that are not in `seps`. */
  method StrCSpn(s: string, from: nat, seps: string) returns (n: nat)
    requires from <= |s|
    ensures from + n <= |s| && (from + n < |s| ==> s[from + n] in seps)
    ensures forall i :: from <= i < from + n ==> s[i] !in seps
  {
    n := 0;
    while from + n < |s| && s[from + n] !in seps
      invariant from + n <= |s| && forall i :: from <= i < from + n ==> s[i] !in seps
    {
      n := n + 1;
    }
  }

  /** The first unquoted separator, or else the end of the string. */
  method NextExpansion(s: string, seps: string) returns (len: nat)
    ensures len <= |s| && (len < |s| ==> s[len] in seps && !Quoted(s, len))
    ensures forall i :: 0 <= i < len ==> s[i] !in seps || Quoted(s, i)
  {
    len := StrCSpn(s, 0, seps);
    while len > 0 && len < |s|
      invariant len <= |s| && (len < |s| ==> s[len] in seps)
      invariant forall i :: 0 <= i < len ==> s[i] !in seps || Quoted(s, i)
      decreases |s| - len
    {
      var quoted := QuotedBackward(s, len);
      if !quoted {
        break;
      }
      var n := StrCSpn(s, len + 1, seps);
      len := len + n + 1;
    }
  }

  // ----- nsh_dequote -----

  /** Drops each unquoted backslash and keeps the character after it. */
  function Dequote(s: string, quoted: bool): (r: string)
    ensures |r| <= |s|
  {
    if s == [] then []
    else if s[0] == BACKSLASH && !quoted then Dequote(s[1..], true)
    else [s[0]] + Dequote(s[1..], false)
  }

  /** The string in a buffer: the characters up to the first terminator. */
  ghost predicate Holds(a: array<char>, from: nat, s: string)
    reads a
  {
    from + |s| < a.Length && a[from..from + |s|] == s && NUL !in s && a[from + |s|] == NUL
  }

  /** Copies characters down by one, up to and including the first terminator. */
  method CopyDown(a: array<char>, p: nat, ghost tail: string)
    requires p + |tail| < a.Length && forall i :: 0 <= i < |tail| ==> a[p + 1 + i] == tail[i]
    requires tail != [] && tail[|tail| - 1] == NUL && forall i :: 0 <= i < |tail| - 1 ==> tail[i] != NUL
    modifies a
    ensures forall i :: 0 <= i < |tail| ==> a[p + i] == tail[i]
    ensures forall i :: 0 <= i < p || p + |tail| <= i < a.Length ==> a[i] == old(a[i])
  {
    var dest, src := p, p + 1;
    var ch := a[src];
    a[dest] := ch;
    dest, src := dest + 1, src + 1;
    ghost var n := 1;
    while ch != NUL
      invariant 1 <= n <= |tail| && dest == p + n && src == dest + 1 && ch == tail[n - 1]
      invariant forall i :: 0 <= i < n ==> a[p + i] == tail[i]
      invariant forall i :: 0 <= i < p || dest <= i < a.Length ==> a[i] == old(a[i])
      decreases |tail| - n
    {
      assert old(a[p + 1 + n]) == tail[n];
      ch := a[src];
      a[dest] := ch;
      dest, src, n := dest + 1, src + 1, n + 1;
    }
  }

  /** Moves a string down over its first character, terminator included. */
  method ShiftDown(a: array<char>, p: nat, ghost s: string)
    requires Holds(a, p, s) && s != []
    modifies a
    ensures Holds(a, p, s[1..])
    ensures a[..p] == old(a[..p]) && a[p + |s|..] == old(a[p + |s|..])
  {
    hide Holds;
    HoldsChars(a, p, s);
    ghost var tail := s[1..] + [NUL];
    CopyDown(a, p, tail);
    assert forall i :: 0 <= i < |s| - 1 ==> s[1..][i] == tail[i] == a[p + i];
    HoldsFrom(a, p, s[1..]);
  }

  /** `Holds`, character by character. */
  lemma HoldsChars(a: array<char>, p: nat, s: string)
    requires Holds(a, p, s)
    ensures p + |s| < a.Length && a[p + |s|] == NUL && NUL !in s
    ensures forall i :: 0 <= i < |s| ==> a[p + i] == s[i]
  {
    forall i | 0 <= i < |s|
      ensures a[p + i] == s[i]
    {
      assert a[p..p + |s|][i] == s[i];
    }
  }

  lemma HoldsFrom(a: array<char>, p: nat, s: string)
    requires p + |s| < a.Length && a[p + |s|] == NUL && NUL !in s
    requires forall i :: 0 <= i < |s| ==> a[p + i] == s[i]
    ensures Holds(a, p, s)
  {
  }

  lemma HoldsTail(a: array<char>, p: nat, s: string)
    requires Holds(a, p, s)
    ensures s == [] <==> a[p] == NUL
    ensures s != [] ==> a[p] == s[0] && Holds(a, p + 1, s[1..])
  {
    if s != [] {
      assert a[p] == a[p..p + |s|][0];
      assert a[p + 1..p + |s|] == a[p..p + |s|][1..];
    }
  }

  lemma HoldsBound(a: array<char>, p: nat, s: string)
    requires Holds(a, p, s)
    ensures p + |s| < a.Length
  {
  }

  lemma HoldsAll(a: array<char>, p: nat)
    requires p < a.Length && a[p] == NUL && NUL !in a[..p]
    ensures Holds(a, 0, a[..p])
  {
  }

  lemma DequoteStep(s: string, quoted: bool)
    requires s != []
    ensures Dequote(s, quoted) == if s[0] == BACKSLASH && !quoted then Dequote(s[1..], true)
                                  else [s[0]] + Dequote(s[1..], false)
  {
  }

  /** The same, with what it leaves alone counted from a later place. */
  method ShiftKeeping(a: array<char>, p: nat, ghost s: string, ghost from: nat)
    requires Holds(a, p, s) && s != [] && p + |s| <= from <= a.Length
    modifies a
    ensures Holds(a, p, s[1..])
    ensures a[..p] == old(a[..p]) && a[from..] == old(a[from..])
  {
    hide Holds;
    HoldsBound(a, p, s);
    ghost var d := from - (p + |s|);
    assert a[from..] == a[p + |s|..][d..];
    ShiftDown(a, p, s);
    assert a[from..] == a[p + |s|..][d..];
  }

  method DequoteInPlace(a: array<char>, ghost s: string)
    requires Holds(a, 0, s)
    modifies a
    ensures Holds(a, 0, Dequote(s, false))
    ensures a[|s|..] == old(a[|s|..])
  {
    hide Dequote, Holds;
    HoldsBound(a, 0, s);
    var ptr: nat, quoted := 0, false;
    ghost var rest := s;
    while a[ptr] != NUL
      invariant ptr + |rest| <= |s| < a.Length && Holds(a, ptr, rest) && NUL !in a[..ptr]
      invariant a[..ptr] + Dequote(rest, quoted) == Dequote(s, false)
      invariant a[|s|..] == old(a[|s|..])
      decreases |rest|
    {
      HoldsTail(a, ptr, rest);
      DequoteStep(rest, quoted);
      if a[ptr] == BACKSLASH && !quoted {
        ShiftKeeping(a, ptr, rest, |s|);
        quoted := true;
      } else {
        quoted := false;
        assert a[..ptr + 1] == a[..ptr] + [rest[0]];
        ptr := ptr + 1;
      }
      rest := rest[1..];
    }
    HoldsTail(a, ptr, rest);
    DequoteNothing(quoted);
    a[ptr] := NUL;
    HoldsAll(a, ptr);
    assert a[..ptr] == Dequote(s, false);
  }

  lemma DequoteNothing(quoted: bool)
    ensures Dequote([], quoted) == []
  {
  }

  // ----- escaping -----

  /** A backslash before every backslash and every character of `specials`. */
  function Escape(s: string, specials: set<char>): string {
    if s == [] then []
    else (if s[0] == BACKSLASH || s[0] in specials then [BACKSLASH, s[0]] else [s[0]]) + Escape(s[1..], specials)
  }

  lemma {:induction false} DequoteUndoesEscape(s: string, specials: set<char>)
    ensures Dequote(Escape(s, specials), false) == s
  {
    if s != [] {
      DequoteUndoesEscape(s[1..], specials);
      var e := Escape(s, specials);
      if s[0] == BACKSLASH || s[0] in specials {
        assert e[1..][1..] == Escape(s[1..], specials);
        assert Dequote(e, false) == Dequote(e[1..], true) == [s[0]] + Dequote(e[1..][1..], false);
      } else {
        assert e[1..] == Escape(s[1..], specials);
      }
    }
  }

  lemma {:induction false} QuotedAfter(h: string, t: string, j: nat)
    requires j <= |t| && !Quoted(h + t, |h|)
    ensures Quoted(h + t, |h| + j) == Quoted(t, j)
  {
    if j > 0 {
      QuotedAfter(h, t, j - 1);
      assert (h + t)[|h| + j - 1] == t[j - 1];
    }
  }

  /** Every special character of an escaped string is quoted, so that no scanner
      stops at it. */
  lemma {:induction false} EscapeHidesSpecials(s: string, specials: set<char>, i: nat)
    requires BACKSLASH !in specials && i < |Escape(s, specials)| && Escape(s, specials)[i] in specials
    ensures Quoted(Escape(s, specials), i)
  {
    var e, t := Escape(s, specials), Escape(s[1..], specials);
    var h := if s[0] == BACKSLASH || s[0] in specials then [BACKSLASH, s[0]] else [s[0]];
    assert e == h + t;
    assert !Quoted(e, 0);
    if i < |h| {
      assert i == 1 && Quoted(e, 1);
    } else {
      assert !Quoted(e, |h|) by {
        if |h| == 2 {
          assert Quoted(e, 1);
        }
      }
      EscapeHidesSpecials(s[1..], specials, i - |h|);
      QuotedAfter(h, t, i - |h|);
    }
  }

  /** A word escaped for all the separators is one whole argument, has nothing to
      expand, and dequotes to itself. */
  lemma EscapedWordSurvives(word: string, specials: set<char>, term: string, seps: string)
    requires BACKSLASH !in specials && (forall c :: c in term || c in seps ==> c in specials)
    ensures var e := Escape(word, specials);
            && (forall i :: 0 <= i < |e| ==> !Delimits(e, i, term) && (e[i] in seps ==> Quoted(e, i)))
            && Dequote(e, false) == word
  {
    var e := Escape(word, specials);
    forall i | 0 <= i < |e|
      ensures !Delimits(e, i, term) && (e[i] in seps ==> Quoted(e, i))
    {
      if e[i] in specials {
        EscapeHidesSpecials(word, specials, i);
      }
    }
    DequoteUndoesEscape(word, specials);
  }
}
