/** The arrow escape applied to subtitle text before it is written:
    `text.replace("-->", "->")`. Python's `str.replace` makes a single
    left-to-right pass and replaces non-overlapping occurrences, and
    `str.count` counts the same occurrences. One pass does not make the result
    arrow-free: see `EscapeCanLeaveArrow`. */
module Escape {

  const Arrow: string := "-->"
  const ShortArrow: string := "->"

  /** An occurrence of the arrow starts at position `i`. */
  predicate ArrowAt(s: string, i: int)
  {
    0 <= i && i + 3 <= |s| && s[i] == '-' && s[i + 1] == '-' && s[i + 2] == '>'
  }

  predicate ContainsArrow(s: string)
  {
    exists i :: 0 <= i < |s| && ArrowAt(s, i)
  }

  /** `s.count("-->")`: the occurrences one left-to-right pass finds. */
  function CountArrows(s: string): (n: nat)
    ensures 3 * n <= |s|
  {
    if s == [] then 0
    else if ArrowAt(s, 0) then 1 + CountArrows(s[3..])
    else CountArrows(s[1..])
  }

  /** The number of positions where the arrow starts, every position looked
      at independently of the others. */
  function Occurrences(s: string): nat
  {
    if |s| < 3 then 0 else (if ArrowAt(s, 0) then 1 else 0) + Occurrences(s[1..])
  }

  /** Two arrows never overlap, so an arrow at the front hides no arrow in
      the two positions after it. */
  lemma NoArrowInsideArrow(s: string)
    requires ArrowAt(s, 0)
    ensures Occurrences(s[1..]) == Occurrences(s[3..])
  {
    assert !ArrowAt(s[1..], 0);
    assert s[1..][1..] == s[2..];
    assert !ArrowAt(s[2..], 0);
    assert s[2..][1..] == s[3..];
  }

  /** The single pass finds every arrow of the text: its count is the number
      of positions where an arrow starts. */
  lemma {:induction false} CountIsOccurrences(s: string)
    ensures CountArrows(s) == Occurrences(s)
    decreases |s|
  {
    if s == [] {
    } else if ArrowAt(s, 0) {
      NoArrowInsideArrow(s);
      CountIsOccurrences(s[3..]);
    } else {
      CountIsOccurrences(s[1..]);
    }
  }

  /** `s.replace("-->", "->")`: each occurrence the pass replaces shortens
      the text by exactly one character. */
  function EscapeArrows(s: string): (r: string)
    ensures |r| == |s| - CountArrows(s)
  {
    if s == [] then []
    else if ArrowAt(s, 0) then ShortArrow + EscapeArrows(s[3..])
    else [s[0]] + EscapeArrows(s[1..])
  }

  /** Occurrences in a suffix are occurrences in the whole text, shifted. */
  lemma ArrowShift(s: string, k: nat, i: int)
    requires k <= |s| && 0 <= i
    ensures ArrowAt(s[k..], i) <==> ArrowAt(s, i + k)
  {
    if i + 3 <= |s| - k {
      assert s[k..][i] == s[i + k] && s[k..][i + 1] == s[i + k + 1] && s[k..][i + 2] == s[i + k + 2];
    }
  }

  lemma LongArrowShift(s: string, k: nat, i: int)
    requires k <= |s| && 0 <= i
    ensures LongArrowAt(s[k..], i) <==> LongArrowAt(s, i + k)
  {
    ArrowShift(s, k, i + 1);
    if i < |s| - k {
      assert s[k..][i] == s[i + k];
    }
  }

  /** Some occurrence is always found when there is one. */
  lemma {:induction false} CountPositive(s: string)
    ensures CountArrows(s) > 0 <==> ContainsArrow(s)
  {
    if s != [] && !ArrowAt(s, 0) {
      CountPositive(s[1..]);
      forall i | 1 <= i < |s| ensures ArrowAt(s, i) <==> ArrowAt(s[1..], i - 1) {
        ArrowShift(s, 1, i - 1);
      }
      if ContainsArrow(s) {
        var i :| 0 <= i < |s| && ArrowAt(s, i);
        assert ArrowAt(s[1..], i - 1);
      }
      if ContainsArrow(s[1..]) {
        var i :| 0 <= i < |s[1..]| && ArrowAt(s[1..], i);
        assert ArrowAt(s, i + 1);
      }
    } else if s != [] {
      assert ArrowAt(s, 0);
    }
  }

  lemma {:induction false} EscapeNoArrow(s: string)
    requires !ContainsArrow(s)
    ensures EscapeArrows(s) == s
  {
    if s != [] {
      forall i | 0 <= i < |s[1..]| ensures !ArrowAt(s[1..], i) {
        ArrowShift(s, 1, i);
      }
      EscapeNoArrow(s[1..]);
    }
  }

  /** Text without an arrow is written unchanged, and only such text. */
  lemma EscapeIdentity(s: string)
    ensures EscapeArrows(s) == s <==> !ContainsArrow(s)
  {
    if ContainsArrow(s) {
      CountPositive(s);
    } else {
      EscapeNoArrow(s);
    }
  }

  /** `"--->"` becomes `"-->"`: one pass can leave an arrow behind. */
  lemma EscapeCanLeaveArrow()
    ensures EscapeArrows("--->") == Arrow
    ensures ContainsArrow(EscapeArrows("--->"))
  {
    var s := "--->";
    assert !ArrowAt(s, 0) && ArrowAt(s[1..], 0);
    assert s[1..][3..] == [];
    assert ArrowAt(Arrow, 0);
  }

  /** The four-character pattern `"--->"` starts at position `i`. */
  predicate LongArrowAt(s: string, i: int)
  {
    0 <= i && ArrowAt(s, i + 1) && s[i] == '-'
  }

  /** An escaped text that starts with `->` came from a text that starts
      with the arrow or with `->` itself. */
  lemma {:induction false} EscapeStart(t: string)
    ensures |EscapeArrows(t)| >= 2 && EscapeArrows(t)[0] == '-' && EscapeArrows(t)[1] == '>' ==>
      ArrowAt(t, 0) || (|t| >= 2 && t[0] == '-' && t[1] == '>')
  {
    if |EscapeArrows(t)| >= 2 && EscapeArrows(t)[0] == '-' && EscapeArrows(t)[1] == '>' && !ArrowAt(t, 0) {
      var rest := EscapeArrows(t[1..]);
      assert EscapeArrows(t) == [t[0]] + rest;
      assert rest[0] == '>';
      assert t[1..] != [];
      if !ArrowAt(t[1..], 0) {
        assert rest[0] == t[1];
      }
    }
  }

  /** The only way an arrow survives the escape: the text held `"--->"`. */
  lemma {:induction false} EscapeArrowFree(s: string)
    requires forall i :: !LongArrowAt(s, i)
    ensures !ContainsArrow(EscapeArrows(s))
  {
    if s != [] {
      var k := if ArrowAt(s, 0) then 3 else 1;
      var head := if ArrowAt(s, 0) then ShortArrow else [s[0]];
      var tail := s[k..];
      forall i ensures !LongArrowAt(tail, i) {
        if 0 <= i {
          LongArrowShift(s, k, i);
        }
      }
      EscapeArrowFree(tail);
      var rest := EscapeArrows(tail);
      assert EscapeArrows(s) == head + rest;
      EscapeStart(tail);
      ArrowShift(s, 1, 0);
      assert !LongArrowAt(s, 0);
      JoinArrowFree(head, rest);
    }
  }

  /** Gluing an arrow-free text behind `"->"` or behind one character that
      cannot complete an arrow with it leaves the result arrow-free. */
  lemma JoinArrowFree(head: string, rest: string)
    requires head == ShortArrow || |head| == 1
    requires !ContainsArrow(rest)
    requires |head| == 1 && |rest| >= 2 ==> !(head[0] == '-' && rest[0] == '-' && rest[1] == '>')
    ensures !ContainsArrow(head + rest)
  {
    var r := head + rest;
    forall i | 0 <= i < |r| ensures !ArrowAt(r, i) {
      if i >= |head| {
        assert r[|head|..] == rest;
        ArrowShift(r, |head|, i - |head|);
      } else if |head| == 2 {
        assert r[1] == '>';
      } else if 3 <= |r| {
        assert r[0] == head[0] && r[1] == rest[0] && r[2] == rest[1];
      }
    }
  }

  /** A text with neither `-` nor `>` in it: no arrow can start in it or end in it. */
  predicate Plain(s: string)
  {
    forall i :: 0 <= i < |s| ==> s[i] != '-' && s[i] != '>'
  }

  /** After a plain text, the arrows are those of what follows, shifted. */
  lemma PlainPrefixArrows(a: string, b: string)
    requires Plain(a)
    ensures forall i :: 0 <= i < |a| ==> !ArrowAt(a + b, i)
    ensures forall i :: 0 <= i ==> (ArrowAt(a + b, i + |a|) <==> ArrowAt(b, i))
  {
    forall i | 0 <= i < |a| ensures !ArrowAt(a + b, i) {
      assert (a + b)[i] == a[i];
    }
    forall i | 0 <= i ensures ArrowAt(a + b, i + |a|) <==> ArrowAt(b, i) {
      assert (a + b)[|a|..] == b;
      ArrowShift(a + b, |a|, i);
    }
  }

  /** A plain text after an arrow-free one adds no arrow. */
  lemma PlainSuffixArrowFree(a: string, b: string)
    requires !ContainsArrow(a) && Plain(b)
    ensures !ContainsArrow(a + b)
  {
    forall i | 0 <= i < |a + b| ensures !ArrowAt(a + b, i) {
      if i + 3 <= |a| {
        assert (a + b)[i] == a[i] && (a + b)[i + 1] == a[i + 1] && (a + b)[i + 2] == a[i + 2];
        assert !ArrowAt(a, i);
      } else if i + 2 < |a + b| {
        assert (a + b)[i + 2] == b[i + 2 - |a|];
      }
    }
  }
}
