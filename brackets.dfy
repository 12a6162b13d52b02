/**
 * Jump-target resolution for Brainfuck programs (find_brackets in bf.py).
 *
 * The resolver scans the program once, left to right, with a stack of the
 * positions of '[' still waiting for their ']'. Every ']' pops the most
 * recent pending '[' and the pair is recorded in two maps, open-to-close and
 * close-to-open. A ']' with nothing to pop and a '[' still pending at the end
 * are the two ways the resolution fails.
 *
 * The specification side is stated with prefix depths: Depth(p, i) is the
 * number of '[' minus the number of ']' among the first i characters.
 */
module Brackets {

  /** How one character changes the nesting depth. */
  function Delta(ch: char): int {
    if ch == '[' then 1 else if ch == ']' then -1 else 0
  }

  /** Number of '[' minus number of ']' in the prefix p[..i]. */
  function Depth(p: string, i: nat): int
    requires i <= |p|
  {
    if i == 0 then 0 else Depth(p, i - 1) + Delta(p[i - 1])
  }

  /** Number of occurrences of ch in s. */
  function Count(s: string, ch: char): nat {
    if s == [] then 0 else Count(s[..|s| - 1], ch) + (if s[|s| - 1] == ch then 1 else 0)
  }

  /** A string whose every prefix has at least as many '[' as ']' and whose counts agree. */
  ghost predicate Balanced(s: string) {
    && (forall k :: 0 <= k <= |s| ==> Depth(s, k) >= 0)
    && Depth(s, |s|) == 0
  }

  /**
   * The '[' at o and the ']' at c are partners: the text strictly between
   * them never dips below the depth just inside o and returns to it at c.
   */
  ghost predicate Matches(p: string, o: nat, c: nat) {
    && o < c < |p|
    && p[o] == '[' && p[c] == ']'
    && Depth(p, c) == Depth(p, o + 1)
    && forall k :: o + 1 <= k <= c ==> Depth(p, k) >= Depth(p, o + 1)
  }

  /** The two maps built by the resolver. */
  datatype JumpTable = JumpTable(openToClose: map<nat, nat>, closeToOpen: map<nat, nat>)

  datatype BracketError = UnmatchedClose | UnmatchedOpen

  datatype Resolution = Resolved(table: JumpTable) | Unresolved(error: BracketError)

  /**
   * A jump table for p: its domains are exactly the positions of '[' and of
   * ']', the two maps are inverse to each other, and every entry is a pair
   * of partner brackets.
   */
  ghost predicate IsJumpTable(p: string, t: JumpTable) {
    && (forall o: nat :: o in t.openToClose <==> o < |p| && p[o] == '[')
    && (forall c: nat :: c in t.closeToOpen <==> c < |p| && p[c] == ']')
    && (forall o: nat :: o in t.openToClose ==>
          t.openToClose[o] in t.closeToOpen && t.closeToOpen[t.openToClose[o]] == o)
    && (forall c: nat :: c in t.closeToOpen ==>
          t.closeToOpen[c] in t.openToClose && t.openToClose[t.closeToOpen[c]] == c)
    && (forall o: nat :: o in t.openToClose ==> Matches(p, o, t.openToClose[o]))
  }

  /** The resolver's loop state after some prefix of the program, or the early failure on ']'. */
  datatype ScanState =
    | Scanning(stack: seq<nat>, openToClose: map<nat, nat>, closeToOpen: map<nat, nat>)
    | Stopped

  /** How the resolver's loop state changes on the character at pos. */
  function ScanStep(p: string, pos: nat, st: ScanState): (r: ScanState)
    requires pos < |p|
    ensures r.Stopped? <==> st.Stopped? || (p[pos] == ']' && |st.stack| == 0)
    ensures r.Scanning? ==> |r.stack| == |st.stack| + Delta(p[pos])
  {
    match st
    case Stopped => Stopped
    case Scanning(stack, openToClose, closeToOpen) =>
      if p[pos] == '[' then
        Scanning(stack + [pos], openToClose, closeToOpen)
      else if p[pos] == ']' then
        if |stack| == 0 then Stopped
        else
          var open := stack[|stack| - 1];
          Scanning(stack[..|stack| - 1], openToClose[open := pos], closeToOpen[pos := open])
      else
        st
  }

  /** The resolver's loop state after the first n characters of p. */
  function Scan(p: string, n: nat): (r: ScanState)
    requires n <= |p|
    ensures r.Scanning? ==> |r.stack| == Depth(p, n)
  {
    if n == 0 then Scanning([], map[], map[]) else ScanStep(p, n - 1, Scan(p, n - 1))
  }

  /** What the resolver returns once the scan is over. */
  function Resolve(p: string): (r: Resolution)
    ensures r.Resolved? ==> IsJumpTable(p, r.table)
  {
    ScanSound(p, |p|);
    match Scan(p, |p|)
    case Stopped => Unresolved(UnmatchedClose)
    case Scanning(stack, openToClose, closeToOpen) =>
      if |stack| != 0 then Unresolved(UnmatchedOpen)
      else Resolved(JumpTable(openToClose, closeToOpen))
  }

  /** No prefix among the first n characters has more ']' than '['. */
  ghost predicate NoNegativePrefix(p: string, n: nat)
    requires n <= |p|
  {
    forall i :: 0 <= i <= n ==> Depth(p, i) >= 0
  }

  /**
   * The stack after n characters holds the pending '[' in increasing order;
   * the one at index j sits at depth j and nothing after it went back down
   * to that depth.
   */
  ghost predicate StackInv(p: string, n: nat, stack: seq<nat>)
    requires n <= |p|
  {
    && |stack| == Depth(p, n)
    && (forall j :: 0 <= j < |stack| ==> stack[j] < n && p[stack[j]] == '[' && Depth(p, stack[j]) == j)
    && (forall j, k :: 0 <= j < |stack| && stack[j] < k <= n ==> Depth(p, k) > j)
    && (forall i, j :: 0 <= i < j < |stack| ==> stack[i] < stack[j])
  }

  /** The maps after n characters pair exactly the brackets already closed, each with its partner. */
  ghost predicate MapsInv(p: string, n: nat, stack: seq<nat>, openToClose: map<nat, nat>, closeToOpen: map<nat, nat>)
    requires n <= |p|
  {
    && (forall o: nat :: o in openToClose <==> o < n && p[o] == '[' && o !in stack)
    && (forall c: nat :: c in closeToOpen <==> c < n && p[c] == ']')
    && (forall o: nat :: o in openToClose ==>
          openToClose[o] in closeToOpen && closeToOpen[openToClose[o]] == o && Matches(p, o, openToClose[o]))
    && (forall c: nat :: c in closeToOpen ==>
          closeToOpen[c] in openToClose && openToClose[closeToOpen[c]] == c)
  }

  /** What holds of the resolver's loop state after n characters. */
  ghost predicate ScanInv(p: string, n: nat, stack: seq<nat>, openToClose: map<nat, nat>, closeToOpen: map<nat, nat>) {
    && n <= |p|
    && NoNegativePrefix(p, n)
    && StackInv(p, n, stack)
    && MapsInv(p, n, stack, openToClose, closeToOpen)
  }

  /** A '[' pushes its position: the stack part of the invariant survives. */
  lemma PushStack(p: string, n: nat, stack: seq<nat>)
    requires n < |p| && p[n] == '['
    requires NoNegativePrefix(p, n) && StackInv(p, n, stack)
    ensures NoNegativePrefix(p, n + 1) && StackInv(p, n + 1, stack + [n])
  {
    assert Depth(p, n + 1) == Depth(p, n) + 1;
  }

  /** A '[' pushes its position: the maps part of the invariant survives. */
  lemma PushMaps(p: string, n: nat, stack: seq<nat>, openToClose: map<nat, nat>, closeToOpen: map<nat, nat>)
    requires n < |p| && p[n] == '['
    requires MapsInv(p, n, stack, openToClose, closeToOpen)
    ensures MapsInv(p, n + 1, stack + [n], openToClose, closeToOpen)
  {
  }

  /** A ']' with a pending '[' pops it: the stack part of the invariant survives. */
  lemma PopStack(p: string, n: nat, stack: seq<nat>)
    requires n < |p| && p[n] == ']' && |stack| > 0
    requires NoNegativePrefix(p, n) && StackInv(p, n, stack)
    ensures NoNegativePrefix(p, n + 1) && StackInv(p, n + 1, stack[..|stack| - 1])
    ensures Matches(p, stack[|stack| - 1], n)
  {
    assert Depth(p, n + 1) == Depth(p, n) - 1;
    var last := |stack| - 1;
    var open := stack[last];
    assert Depth(p, open + 1) == Depth(p, open) + 1;
    forall k | open + 1 <= k <= n
      ensures Depth(p, k) >= Depth(p, open + 1)
    {
      assert Depth(p, k) > last;
    }
  }

  /** A ']' with a pending '[' records the pair: the maps part of the invariant survives. */
  lemma PopMaps(p: string, n: nat, stack: seq<nat>, openToClose: map<nat, nat>, closeToOpen: map<nat, nat>)
    requires n < |p| && p[n] == ']' && |stack| > 0
    requires Matches(p, stack[|stack| - 1], n)
    requires forall i, j :: 0 <= i < j < |stack| ==> stack[i] < stack[j]
    requires forall j :: 0 <= j < |stack| ==> stack[j] < n
    requires MapsInv(p, n, stack, openToClose, closeToOpen)
    ensures var open := stack[|stack| - 1];
      MapsInv(p, n + 1, stack[..|stack| - 1], openToClose[open := n], closeToOpen[n := open])
  {
    var last := |stack| - 1;
    var open := stack[last];
    var stack' := stack[..last];
    var o2c, c2o := openToClose[open := n], closeToOpen[n := open];
    assert open !in openToClose;
    forall o: nat
      ensures o in o2c <==> o < n + 1 && p[o] == '[' && o !in stack'
    {
      if o != open && o in stack {
        var j :| 0 <= j < |stack| && stack[j] == o;
        assert stack'[j] == o;
      }
    }
  }

  /** Any other character leaves the stack alone and its invariant survives. */
  lemma SkipStack(p: string, n: nat, stack: seq<nat>)
    requires n < |p| && p[n] != '[' && p[n] != ']'
    requires NoNegativePrefix(p, n) && StackInv(p, n, stack)
    ensures NoNegativePrefix(p, n + 1) && StackInv(p, n + 1, stack)
  {
    assert Depth(p, n + 1) == Depth(p, n);
  }

  /** Any other character leaves the maps alone and their invariant survives. */
  lemma SkipMaps(p: string, n: nat, stack: seq<nat>, openToClose: map<nat, nat>, closeToOpen: map<nat, nat>)
    requires n < |p| && p[n] != '[' && p[n] != ']'
    requires MapsInv(p, n, stack, openToClose, closeToOpen)
    ensures MapsInv(p, n + 1, stack, openToClose, closeToOpen)
  {
  }

  /** Once the scan has stopped on an unmatched ']' it stays stopped. */
  lemma {:induction false} StoppedStaysStopped(p: string, n: nat, m: nat)
    requires n <= m <= |p| && Scan(p, n).Stopped?
    ensures Scan(p, m).Stopped?
  {
    if n < m {
      StoppedStaysStopped(p, n, m - 1);
    }
  }

  /** One character of the scan keeps ScanInv. */
  lemma ScanStepSound(p: string, pos: nat, st: ScanState)
    requires pos < |p| && st.Scanning? && ScanInv(p, pos, st.stack, st.openToClose, st.closeToOpen)
    ensures var r := ScanStep(p, pos, st);
      r.Scanning? ==> ScanInv(p, pos + 1, r.stack, r.openToClose, r.closeToOpen)
  {
    if p[pos] == '[' {
      PushStack(p, pos, st.stack);
      PushMaps(p, pos, st.stack, st.openToClose, st.closeToOpen);
    } else if p[pos] == ']' {
      if |st.stack| > 0 {
        PopStack(p, pos, st.stack);
        PopMaps(p, pos, st.stack, st.openToClose, st.closeToOpen);
      }
    } else {
      SkipStack(p, pos, st.stack);
      SkipMaps(p, pos, st.stack, st.openToClose, st.closeToOpen);
    }
  }

  /** Every reachable loop state satisfies ScanInv. */
  lemma {:induction false} ScanSound(p: string, n: nat)
    requires n <= |p|
    ensures Scan(p, n).Scanning? ==>
      ScanInv(p, n, Scan(p, n).stack, Scan(p, n).openToClose, Scan(p, n).closeToOpen)
  {
    if n > 0 {
      ScanSound(p, n - 1);
      if Scan(p, n - 1).Scanning? {
        ScanStepSound(p, n - 1, Scan(p, n - 1));
      }
    }
  }

  /** The scan stops early exactly when some prefix of the first n characters has more ']' than '['. */
  lemma {:induction false} ScanStoppedIff(p: string, n: nat)
    requires n <= |p|
    ensures Scan(p, n).Stopped? <==> exists i :: 0 <= i <= n && Depth(p, i) < 0
  {
    ScanSound(p, n);
    if n > 0 && Scan(p, n).Stopped? {
      ScanStoppedIff(p, n - 1);
      if Scan(p, n - 1).Scanning? {
        ScanSound(p, n - 1);
        assert Depth(p, n) < 0;
      }
    }
  }

  /** Depth is the difference of the two bracket counts of the prefix. */
  lemma {:induction false} DepthIsCountDifference(p: string, i: nat)
    requires i <= |p|
    ensures Depth(p, i) == Count(p[..i], '[') - Count(p[..i], ']')
  {
    if i > 0 {
      DepthIsCountDifference(p, i - 1);
      assert p[..i][..i - 1] == p[..i - 1];
    }
  }

  /**
   * The resolver's verdict: "Unmatched ]" exactly when some prefix has more
   * ']' than '['; otherwise "Unmatched [" exactly when the totals differ;
   * success exactly when the program is balanced.
   */
  lemma ResolveVerdict(p: string)
    ensures Resolve(p) == Unresolved(UnmatchedClose) <==>
      exists i :: 0 <= i <= |p| && Count(p[..i], '[') < Count(p[..i], ']')
    ensures Resolve(p) == Unresolved(UnmatchedOpen) <==>
      (forall i :: 0 <= i <= |p| ==> Count(p[..i], '[') >= Count(p[..i], ']')) &&
      Count(p, '[') != Count(p, ']')
    ensures Resolve(p).Resolved? <==> Balanced(p)
  {
    ScanSound(p, |p|);
    ScanStoppedIff(p, |p|);
    forall i | 0 <= i <= |p| {
      DepthIsCountDifference(p, i);
    }
    assert p[..|p|] == p;
  }

  /** A '[' has at most one partner. */
  lemma MatchesUniqueClose(p: string, o: nat, c1: nat, c2: nat)
    requires Matches(p, o, c1) && Matches(p, o, c2)
    ensures c1 == c2
  {
    // Just after either ']' the depth is back below the level inside o.
    assert Depth(p, c1 + 1) < Depth(p, o + 1);
    assert Depth(p, c2 + 1) < Depth(p, o + 1);
  }

  /** A ']' has at most one partner. */
  lemma MatchesUniqueOpen(p: string, o1: nat, o2: nat, c: nat)
    requires Matches(p, o1, c) && Matches(p, o2, c)
    ensures o1 == o2
  {
    // Each '[' sits one level below the text it opens.
    assert Depth(p, o1) < Depth(p, o1 + 1);
    assert Depth(p, o2) < Depth(p, o2 + 1);
  }

  /** Each entry of a jump table is the one and only partner of its brackets. */
  lemma JumpTableIsTheMatching(p: string, t: JumpTable, o: nat, c: nat)
    requires IsJumpTable(p, t)
    ensures o in t.openToClose && t.openToClose[o] == c <==> Matches(p, o, c)
  {
    if Matches(p, o, c) {
      assert o in t.openToClose;
      MatchesUniqueClose(p, o, c, t.openToClose[o]);
    }
  }

  /** Two pairs never cross: a pair that opens inside another also closes inside it. */
  lemma NoCrossing(p: string, t: JumpTable, o1: nat, o2: nat)
    requires IsJumpTable(p, t)
    requires o1 in t.openToClose && o2 in t.openToClose
    requires o1 < o2 < t.openToClose[o1]
    ensures t.openToClose[o2] < t.openToClose[o1]
  {
    var c1, c2 := t.openToClose[o1], t.openToClose[o2];
    assert Matches(p, o1, c1) && Matches(p, o2, c2);
    // Inside the outer pair the depth at o2 is at least the outer level, so
    // the text opened by o2 sits strictly deeper than the outer ']' at c1.
    assert Depth(p, o2) >= Depth(p, o1 + 1);
    assert Depth(p, o2 + 1) > Depth(p, c1);
    assert c1 != c2 by {
      assert t.closeToOpen[c1] == o1 && t.closeToOpen[c2] == o2;
    }
  }

  /** Depths inside a slice are depths of the whole program, shifted. */
  lemma {:induction false} DepthOfSlice(p: string, a: nat, b: nat, k: nat)
    requires a <= b <= |p| && k <= b - a
    ensures Depth(p[a..b], k) == Depth(p, a + k) - Depth(p, a)
  {
    if k > 0 {
      DepthOfSlice(p, a, b, k - 1);
      assert p[a..b][k - 1] == p[a + k - 1];
    }
  }

  /** The text strictly between the two brackets of a pair is itself balanced. */
  lemma BalancedBetween(p: string, o: nat, c: nat)
    requires Matches(p, o, c)
    ensures Balanced(p[o + 1..c])
  {
    var s := p[o + 1..c];
    forall k | 0 <= k <= |s|
      ensures Depth(s, k) >= 0
    {
      DepthOfSlice(p, o + 1, c, k);
    }
    DepthOfSlice(p, o + 1, c, |s|);
  }

  /**
   * The resolver as written in bf.py:4-20: one pass with a stack and two
   * maps updated in place.
   */
  method FindBrackets(program: string) returns (r: Resolution)
    ensures r == Resolve(program)
    ensures r.Resolved? ==> IsJumpTable(program, r.table)
  {
    var stack: seq<nat> := [];
    var openToClose: map<nat, nat> := map[];
    var closeToOpen: map<nat, nat> := map[];
    for pos := 0 to |program|
      invariant Scan(program, pos) == Scanning(stack, openToClose, closeToOpen)
    {
      var op := program[pos];
      if op == '[' {
        stack := stack + [pos];
      } else if op == ']' {
        var open;
        if |stack| > 0 {
          open := stack[|stack| - 1];
          stack := stack[..|stack| - 1];
        } else {
          StoppedStaysStopped(program, pos + 1, |program|);
          return Unresolved(UnmatchedClose);
        }
        openToClose := openToClose[open := pos];
        closeToOpen := closeToOpen[pos := open];
      }
    }
    if |stack| > 0 {
      return Unresolved(UnmatchedOpen);
    }
    return Resolved(JumpTable(openToClose, closeToOpen));
  }
}
