/** The compressed transition tables of the generated scanner, and what they mean. */
module Tables {
  import opened Bytes
  import opened Codec
  import opened Rules

  const YY_END_OF_BUFFER: nat := 6
  const START: nat := 1
  const JAM: nat := 13

  const YY_ACCEPT: seq<nat> := [0, 0, 0, 6, 4, 5, 4, 1, 2, 0, 0, 0, 3, 0]

  const YY_META: seq<nat> := [0, 1, 1, 1, 2, 1, 1, 1]
  const YY_BASE: seq<nat> := [0, 0, 0, 13, 14, 14, 9, 14, 14, 8, 3, 2, 14, 14, 7]
  const YY_DEF: seq<nat> := [0, 13, 1, 13, 13, 13, 14, 13, 13, 14, 13, 13, 13, 0, 13]
  const YY_NXT: seq<nat> := [0, 4, 5, 4, 6, 7, 8, 4, 9, 12, 11, 10, 10, 13, 3, 13, 13, 13, 13, 13, 13, 13]
  const YY_CHK: seq<nat> := [0, 1, 1, 1, 1, 1, 1, 1, 14, 11, 10, 9, 6, 3, 13, 13, 13, 13, 13, 13, 13, 13]

  function EcByRange(b: byte): nat {
    if b == 0 then 0
    else if b == NEWLINE then 2
    else if b == HASH then 3
    else if b == DOLLAR then 4
    else if b == PLUS then 5
    else if b == MINUS then 6
    else if IsHex(b) then 7
    else 1
  }

  /** yy_ec, in rows of sixteen. */
  function YyEc(row: nat): (r: seq<nat>)
    requires row < 16
    ensures |r| == 16 && forall k | 0 <= k < 16 :: r[k] == EcByRange(16 * row + k)
  {
    match row
    case 0 => [0, 1, 1, 1, 1, 1, 1, 1, 1, 1, 2, 1, 1, 1, 1, 1]
    case 2 => [1, 1, 1, 3, 4, 1, 1, 1, 1, 1, 1, 5, 1, 6, 1, 1]
    case 3 => [7, 7, 7, 7, 7, 7, 7, 7, 7, 7, 1, 1, 1, 1, 1, 1]
    case 4 => [1, 7, 7, 7, 7, 7, 7, 1, 1, 1, 1, 1, 1, 1, 1, 1]
    case 6 => [1, 7, 7, 7, 7, 7, 7, 1, 1, 1, 1, 1, 1, 1, 1, 1]
    case _ => [1, 1, 1, 1, 1, 1, 1, 1, 1, 1, 1, 1, 1, 1, 1, 1]
  }

  /** The equivalence class of a byte, read from the table. */
  function Ec(b: byte): (c: nat)
    ensures c == EcByRange(b)
  {
    YyEc(b / 16)[b % 16]
  }

  /** The class the scanner uses for a byte of text: NUL is an ordinary character there. */
  function TextClass(b: byte): (c: nat)
    ensures 1 <= c <= 7
  {
    if b != NUL then Ec(b) else 1
  }

  /** Position of a state on its default chain; every step along yy_def goes down. */
  function Rank(q: nat): nat {
    if q == JAM then 0 else if q == 14 || q == START then 1 else 2
  }

  predicate IsState(q: nat) { 1 <= q <= 14 }

  /** The class looked up after falling back to yy_def. */
  function DefaultClass(q: nat, c: nat): (d: nat)
    requires IsState(q) && c <= 7
    ensures d <= 7
  {
    if YY_DEF[q] >= 14 then YY_META[c] else c
  }

  predicate Owns(q: nat, c: nat)
    requires IsState(q) && c <= 7
  {
    YY_CHK[YY_BASE[q] + c] == q
  }

  /** A step down the default chain lands on a lower state; the chain ends at JAM, which owns every class. */
  lemma DefaultChainDescends(q: nat, c: nat)
    requires IsState(q) && c <= 7
    ensures !Owns(q, c) ==> IsState(YY_DEF[q]) && Rank(YY_DEF[q]) < Rank(q)
    ensures Owns(JAM, c)
  {
  }

  lemma InTables(q: nat, c: nat)
    requires IsState(q) && c <= 7
    ensures q < |YY_BASE| && q < |YY_DEF| && c < |YY_META| && YY_BASE[q] + c < |YY_NXT| == |YY_CHK|
  {
  }

  /** One transition: walk the default chain to a state that owns the class, then take its entry. */
  function TableNext(q: nat, c: nat): nat
    requires IsState(q) && c <= 7
    decreases Rank(q)
  {
    DefaultChainDescends(q, c);
    if Owns(q, c) then YY_NXT[YY_BASE[q] + c] else TableNext(YY_DEF[q], DefaultClass(q, c))
  }

  /** The automaton the tables compress, for the states the scanner can be in. */
  function Delta(q: nat, c: nat): nat
    requires 1 <= q <= JAM && q != 2 && c <= 7
  {
    if q == 3 then JAM
    else if c == 0 then 3
    else if q == START then
      (match c case 2 => 5 case 4 => 6 case 5 => 7 case 6 => 8 case _ => 4)
    else if q == 6 || q == 9 then
      (match c case 3 => 10 case 4 => JAM case _ => 9)
    else if q == 10 && c == 7 then 11
    else if q == 11 && c == 7 then 12
    else JAM
  }

  lemma DefaultTemplate(c: nat)
    requires c <= 7
    ensures TableNext(JAM, c) == if c == 0 then 3 else JAM
    ensures TableNext(14, YY_META[c]) == if c == 0 then 3 else if c == 4 then JAM else 9
  {
    assert forall d | d <= 7 :: Owns(JAM, d);
  }

  lemma TableIsDelta(q: nat, c: nat)
    requires 1 <= q <= JAM && q != 2 && c <= 7
    ensures TableNext(q, c) == Delta(q, c)
  {
    DefaultTemplate(c);
    DefaultChainDescends(q, c);
    if Owns(q, c) {
      OwnedIsDelta(q, c);
    } else {
      DefaultIsDelta(q, c);
    }
  }

  lemma OwnedIsDelta(q: nat, c: nat)
    requires 1 <= q <= JAM && q != 2 && c <= 7 && Owns(q, c)
    ensures YY_NXT[YY_BASE[q] + c] == Delta(q, c)
  {
  }

  lemma DefaultIsDelta(q: nat, c: nat)
    requires 1 <= q <= JAM && q != 2 && c <= 7 && !Owns(q, c)
    ensures YY_DEF[q] == 14 ==> Delta(q, c) == if c == 0 then 3 else if c == 4 then JAM else 9
    ensures YY_DEF[q] == 14 ==> DefaultClass(q, c) == YY_META[c]
    ensures YY_DEF[q] != 14 ==> YY_DEF[q] == JAM && DefaultClass(q, c) == c && Delta(q, c) == if c == 0 then 3 else JAM
  {
  }

  /** The rule a state accepts, or 0. */
  function Accept(q: nat): nat {
    match q case 3 => YY_END_OF_BUFFER case 4 => STRAY case 5 => DEFAULT case 6 => STRAY
    case 7 => ACK case 8 => NAK case 12 => PACKET case _ => 0
  }

  /** The states at which the matching loop leaves off. */
  predicate Stops(q: nat) {
    q == 4 || q == 5 || q == 7 || q == 8 || q == 12 || q == JAM
  }

  lemma TableAcceptAndBase(q: nat)
    requires 1 <= q <= JAM
    ensures YY_ACCEPT[q] == Accept(q)
    ensures q != 2 ==> (YY_BASE[q] == 14 <==> Stops(q))
  {
  }

  /** The state after the first k bytes of s. */
  function Run(s: seq<byte>, k: nat): (q: nat)
    requires k <= |s|
    ensures 1 <= q <= JAM && q != 2 && q != 3
  {
    if k == 0 then START else Delta(Run(s, k - 1), TextClass(s[k - 1]))
  }

  /** Read so far: "$" and then no '$' or '#'. */
  predicate Opened(s: seq<byte>) {
    |s| >= 1 && s[0] == DOLLAR && Plain(s[1..])
  }

  /** The state after a text, read off the text itself. */
  function StateOf(s: seq<byte>): nat {
    var n := |s|;
    if n == 0 then START
    else if n == 1 then Delta(START, TextClass(s[0]))
    else if Opened(s) then 9
    else if s[n - 1] == HASH && Opened(s[..n - 1]) then 10
    else if n >= 3 && s[n - 2] == HASH && IsHex(s[n - 1]) && Opened(s[..n - 2]) then 11
    else if PacketPattern(s) then 12
    else JAM
  }

  lemma OpenedPrefix(s: seq<byte>)
    requires |s| >= 2
    ensures Opened(s) <==> Opened(s[..|s| - 1]) && s[|s| - 1] != DOLLAR && s[|s| - 1] != HASH
  {
    var n := |s|;
    assert forall i | 0 <= i < n - 2 :: s[1..][i] == s[..n - 1][1..][i];
    assert s[1..][n - 2] == s[n - 1];
  }

  lemma PacketIsOpened(s: seq<byte>)
    requires |s| >= 4
    ensures PacketPattern(s) <==> Opened(s[..|s| - 3]) && s[|s| - 3] == HASH && IsHex(s[|s| - 2]) && IsHex(s[|s| - 1])
  {
    assert s[..|s| - 3][1..] == s[1..|s| - 3];
  }

  /** An opened text has no '#' where a packet has its own. */
  lemma PacketAfterOpened(s: seq<byte>)
    requires |s| >= 4 && Opened(s)
    ensures !PacketPattern(s)
  {
    assert s[1..][|s| - 4] == s[|s| - 3];
  }

  lemma StateOfTiny(s: seq<byte>)
    requires |s| <= 1
    ensures StateOf(s) == if s == [] then START else Delta(START, TextClass(s[0]))
  {
  }

  lemma StateOfShort(s: seq<byte>)
    requires 2 <= |s| <= 3
    ensures StateOf(s) == Delta(StateOf(s[..|s| - 1]), TextClass(s[|s| - 1]))
  {
    OpenedPrefix(s);
  }

  lemma StateOfLong(s: seq<byte>)
    requires |s| >= 4
    ensures StateOf(s) == Delta(StateOf(s[..|s| - 1]), TextClass(s[|s| - 1]))
  {
    var n := |s|;
    var p := s[..n - 1];
    OpenedPrefix(s);
    PacketIsOpened(s);
    assert p[..n - 2] == s[..n - 2] && p[..n - 3] == s[..n - 3];
    hide Opened, PacketPattern, IsHex;
  }

  lemma RunStarts(s: seq<byte>)
    ensures Run(s, 0) == START
  {
  }

  lemma RunNext(s: seq<byte>, k: nat)
    requires 0 < k <= |s|
    ensures Run(s, k) == Delta(Run(s, k - 1), TextClass(s[k - 1]))
  {
  }

  lemma {:induction false} RunIsStateOf(s: seq<byte>, k: nat)
    requires k <= |s|
    ensures Run(s, k) == StateOf(s[..k])
  {
    hide *;
    var t := s[..k];
    RunStarts(s);
    if k == 0 {
      StateOfTiny(t);
    } else if k == 1 {
      StateOfTiny(t);
      RunNext(s, 1);
      assert t[0] == s[0];
    } else {
      RunIsStateOf(s, k - 1);
      RunNext(s, k);
      assert t[..k - 1] == s[..k - 1] && t[k - 1] == s[k - 1];
      if k >= 4 {
        StateOfLong(t);
      } else {
        StateOfShort(t);
      }
    }
  }

  /** The compressed tables recognise exactly the rules: after every text, the accepted rule is the first matching one. */
  lemma TablesRefineRules(s: seq<byte>, k: nat)
    requires 1 <= k <= |s|
    ensures YY_ACCEPT[Run(s, k)] == FirstRule(s[..k])
  {
    RunIsStateOf(s, k);
    TableAcceptAndBase(Run(s, k));
    StateAccepts(s[..k]);
  }

  lemma StateAccepts(t: seq<byte>)
    requires t != []
    ensures Accept(StateOf(t)) == FirstRule(t)
  {
    if |t| >= 4 && Opened(t) {
      PacketAfterOpened(t);
    }
  }

  /** Nothing is recognised once the matcher has stopped. */
  lemma {:induction false} StoppedStaysJammed(s: seq<byte>, m: nat, k: nat)
    requires m < k <= |s| && Stops(Run(s, m))
    ensures Run(s, k) == JAM
  {
    hide Delta, Run, TextClass;
    if k > m + 1 {
      StoppedStaysJammed(s, m, k - 1);
    }
    RunNext(s, k);
    StopsJam(Run(s, k - 1), TextClass(s[k - 1]));
  }

  lemma StopsJam(q: nat, c: nat)
    requires Stops(q) && 1 <= c <= 7
    ensures Delta(q, c) == JAM
  {
  }

  /** The rule accepted after the first k bytes of s, or 0. */
  function AcceptAt(s: seq<byte>, k: nat): nat
    requires k <= |s|
  {
    Accept(Run(s, k))
  }

  /** The longest proper prefix of s[..k] in an accepting state, or 0: what yy_last_accepting_cpos remembers. */
  function LastAccept(s: seq<byte>, k: nat): (j: nat)
    requires k <= |s|
    ensures j <= k
  {
    if k == 0 then 0
    else if k > 1 && AcceptAt(s, k - 1) > 0 then k - 1
    else LastAccept(s, k - 1)
  }

  lemma {:induction false} LastAcceptMeaning(s: seq<byte>, k: nat)
    requires k <= |s|
    ensures var j := LastAccept(s, k); j == 0 || (0 < j < k && AcceptAt(s, j) > 0)
    ensures forall i | LastAccept(s, k) < i < k :: AcceptAt(s, i) == 0
  {
    hide AcceptAt;
    if k > 0 {
      LastAcceptMeaning(s, k - 1);
    }
  }

  /** The matcher stops after k bytes: in a state without transitions, at the end of the input, or in front of a
      byte that jams it. Accepting there or else backing up gives the rules' longest match. */
  lemma BackUpIsLongest(s: seq<byte>, k: nat)
    requires 1 <= k <= |s|
    requires Stops(Run(s, k)) || k == |s| || Run(s, k + 1) == JAM
    ensures var j := if AcceptAt(s, k) > 0 then k else LastAccept(s, k);
            && 1 <= j <= k && j == TokenLength(s) && AcceptAt(s, j) == FirstRule(s[..j])
  {
    hide Run, Accept, AcceptAt, FirstRule, TokenLength, LastAccept, Stops;
    var j := if AcceptAt(s, k) > 0 then k else LastAccept(s, k);
    LastAcceptMeaning(s, k);
    FirstByteAccepts(s);
    assert j >= 1;
    AcceptAtIsRule(s, j);
    forall i | j < i <= |s|
      ensures FirstRule(s[..i]) == 0
    {
      AcceptAtIsRule(s, i);
      if i > k {
        AfterStop(s, k, i);
      }
    }
    LongestIs(s, j);
  }

  lemma AcceptAtIsRule(s: seq<byte>, k: nat)
    requires 1 <= k <= |s|
    ensures AcceptAt(s, k) == FirstRule(s[..k])
  {
    TablesRefineRules(s, k);
    TableAcceptAndBase(Run(s, k));
  }

  lemma FirstByteAccepts(s: seq<byte>)
    requires s != []
    ensures AcceptAt(s, 1) > 0
  {
    hide AcceptAt;
    AcceptAtIsRule(s, 1);
    assert |s[..1]| == 1;
  }

  lemma LongestIs(s: seq<byte>, j: nat)
    requires 1 <= j <= |s| && FirstRule(s[..j]) > 0
    requires forall i | j < i <= |s| :: FirstRule(s[..i]) == 0
    ensures j == TokenLength(s)
  {
    hide FirstRule, TokenLength;
    LongestUnique(s, j, TokenLength(s));
  }

  lemma AfterStop(s: seq<byte>, k: nat, i: nat)
    requires k < i <= |s|
    requires Stops(Run(s, k)) || Run(s, k + 1) == JAM
    ensures AcceptAt(s, i) == 0
  {
    hide Run;
    if Stops(Run(s, k)) {
      StoppedStaysJammed(s, k, i);
    } else if k + 1 < i {
      StoppedStaysJammed(s, k + 1, i);
    }
  }
}
