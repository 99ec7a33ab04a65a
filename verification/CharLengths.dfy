/** Comparisons of CHAR columns (src/execution/execution_defs.h): eval_condition runs strncmp with the left column's
    length, so columns of different lengths are not compared by their values, and swapping the operands matters. */
module CharLengths {
  import opened Types
  import opened Compare
  import opened Planner

  // ----------------------------------------------------------------------------- string values

  /** The order of the values: NUL-padded strings, whatever the lengths of their columns. */
  function TextCmp(a: Field, b: Field): int {
    var x, y := if a == [] then 0 else a[0], if b == [] then 0 else b[0];
    if x != y then x - y else if x == 0 then 0 else TextCmp(a[1..], b[1..])
  }

  lemma {:induction false} TextFlip(a: Field, b: Field)
    ensures TextCmp(a, b) == -TextCmp(b, a)
  {
    if a == [] || b == [] || a[0] != b[0] || a[0] == 0 {
    } else {
      TextFlip(a[1..], b[1..]);
    }
  }

  /** On columns of one length strncmp orders the values. */
  lemma {:induction false} TextIsStrCmp(a: Field, b: Field)
    requires |a| == |b|
    ensures Decided(a, b) && StrCmp(a, b) == TextCmp(a, b)
  {
    if a == [] || a[0] != b[0] || a[0] == 0 {
    } else {
      TextIsStrCmp(a[1..], b[1..]);
    }
  }

  /** A comparison cut to the left column's length still decides > and <=. */
  lemma {:induction false} TextPrefix(a: Field, b: Field)
    requires |a| <= |b|
    ensures Decided(a, b[..|a|]) && (StrCmp(a, b[..|a|]) > 0 <==> TextCmp(a, b) > 0)
  {
    if a == [] || a[0] != b[0] || a[0] == 0 {
    } else {
      TextPrefix(a[1..], b[1..]);
      assert b[..|a|][1..] == b[1..][..|a| - 1];
    }
  }

  /** Bytes that agree, without a NUL, up to position k. */
  ghost predicate AgreeTo(a: Field, b: Field, k: nat) {
    k <= |a| && k <= |b| && forall i :: 0 <= i < k ==> a[i] == b[i] && a[i] != 0
  }

  lemma AgreeTail(a: Field, b: Field, k: nat)
    requires AgreeTo(a, b, k) && k > 0
    ensures AgreeTo(a[1..], b[1..], k - 1)
  {
  }

  lemma {:induction false} StrCmpAt(a: Field, b: Field, k: nat)
    requires AgreeTo(a, b, k) && k < |a| && k < |b| && a[k] != b[k]
    ensures Decided(a, b) && StrCmp(a, b) == (a[k] as int) - (b[k] as int)
  {
    if k == 0 {
    } else {
      AgreeTail(a, b, k);
      StrCmpAt(a[1..], b[1..], k - 1);
    }
  }

  lemma {:induction false} StrCmpEqual(a: Field, b: Field)
    requires AgreeTo(a, b, |a|)
    ensures Decided(a, b) && StrCmp(a, b) == 0
  {
    if a == [] {
    } else {
      AgreeTail(a, b, |a|);
      StrCmpEqual(a[1..], b[1..]);
    }
  }

  lemma {:induction false} RunsOut(a: Field, b: Field)
    requires AgreeTo(a, b, |b|) && |b| < |a|
    ensures !Decided(a, b)
  {
    if b == [] {
    } else {
      AgreeTail(a, b, |b|);
      RunsOut(a[1..], b[1..]);
    }
  }

  /** The value with more bytes is the greater one. */
  lemma {:induction false} TextLonger(a: Field, b: Field)
    requires AgreeTo(a, b, |b|) && |b| < |a| && a[|b|] > 0
    ensures TextCmp(a, b) > 0
  {
    if b == [] {
    } else {
      AgreeTail(a, b, |b|);
      TextLonger(a[1..], b[1..]);
    }
  }

  // -------------------------------------------------------------------- comparisons of columns

  /** The order of two column values. */
  function CompareValues(t: ColType, a: Field, b: Field): int {
    if t.TypeString? then TextCmp(a, b) else CompareRaw(t, a, b)
  }

  lemma ValuesFlip(t: ColType, a: Field, b: Field)
    ensures CompareValues(t, a, b) == -CompareValues(t, b, a)
  {
    hide CompareRaw;
    TextFlip(a, b);
    CompareFlip(t, a, b);
  }

  function Left(cols: seq<ColMeta>, c: Condition): ColMeta
    requires Resolves(cols, c)
  {
    FindCol(cols, c.lhs).value
  }

  function Right(cols: seq<ColMeta>, c: Condition): ColMeta
    requires Resolves(cols, c) && c.rhs.RhsCol?
  {
    FindCol(cols, c.rhs.rcol).value
  }

  /** What the comparison means: it orders the two values. */
  predicate ValueHolds(cols: seq<ColMeta>, c: Condition, rec: Record)
    requires Fits(cols, rec) && Resolves(cols, c) && c.rhs.RhsCol?
  {
    var l, r := Left(cols, c), Right(cols, c);
    EvalCompare(CompareValues(l.ctype, FieldOf(rec, l), FieldOf(rec, r)), c.op)
  }

  /** The lengths, and the operator, with which strncmp over the left length orders the values. */
  predicate Proper(len: nat, rlen: nat, op: CompOp) {
    len == rlen || (len < rlen && (op == OpGt || op == OpLe))
  }

  /** Two columns of one type; other types than CHAR have one length each. */
  predicate LikeTypes(l: ColMeta, r: ColMeta) {
    l.ctype == r.ctype && (!l.ctype.TypeString? ==> l.len == r.len)
  }

  lemma ProperMeans(cols: seq<ColMeta>, c: Condition, rec: Record)
    requires Fits(cols, rec) && Resolves(cols, c) && c.rhs.RhsCol? && LikeTypes(Left(cols, c), Right(cols, c))
    requires Proper(Left(cols, c).len, Right(cols, c).len, c.op)
    ensures CondValue(cols, c, rec) == Some(ValueHolds(cols, c, rec))
  {
    hide CompareRaw;
    var l, r := Left(cols, c), Right(cols, c);
    var a, b := FieldOf(rec, l), FieldOf(rec, r);
    assert RightBytes(rec, r, l.len) == b[..l.len];
    if l.len == r.len { TextIsStrCmp(a, b); assert b[..l.len] == b; } else { TextPrefix(a, b); }
    StringIsStrCmp(a, b[..l.len]);
  }

  lemma StringIsStrCmp(a: Field, b: Field)
    ensures CompareRaw(TypeString, a, b) == StrCmp(a, b)
  {
  }

  // ------------------------------------------------------------------ when lengths are the matter

  /** Two columns share no byte, or are one column. */
  predicate Apart(l: ColMeta, r: ColMeta) {
    l == r || l.offset + l.len <= r.offset || r.offset + r.len <= l.offset
  }

  /** A comparison of two CHAR columns in tuples of n bytes. */
  predicate CharPair(cols: seq<ColMeta>, c: Condition, n: nat) {
    && Resolves(cols, c) && c.rhs.RhsCol?
    && Left(cols, c).ctype == TypeString == Right(cols, c).ctype && Apart(Left(cols, c), Right(cols, c))
    && forall i :: 0 <= i < |cols| ==> cols[i].offset + cols[i].len <= n
  }

  lemma PairInside(cols: seq<ColMeta>, c: Condition, n: nat)
    requires CharPair(cols, c, n)
    ensures Left(cols, c).offset + Left(cols, c).len <= n && Right(cols, c).offset + Right(cols, c).len <= n
  {
    var i :| 0 <= i < |cols| && cols[i] == Left(cols, c);
    var j :| 0 <= j < |cols| && cols[j] == Right(cols, c);
  }

  function Fill(n: nat, b: Byte): (s: seq<Byte>)
    ensures |s| == n && forall i :: 0 <= i < n ==> s[i] == b
  {
    seq(n, _ => b)
  }

  /** The tuple of n letters 'a', with one of them replaced. */
  function Letters(n: nat, k: nat, b: Byte): (s: Record)
    ensures |s| == n && forall i :: 0 <= i < n ==> s[i] == if i == k then b else 97
  {
    seq(n, i => if i == k then b else 97)
  }

  ghost predicate ExactOn(cols: seq<ColMeta>, c: Condition, rec: Record)
    requires Fits(cols, rec) && Resolves(cols, c) && c.rhs.RhsCol?
  {
    CondValue(cols, c, rec) == Some(ValueHolds(cols, c, rec))
  }

  /** eval_condition on two CHAR columns, in terms of the bytes that it reads. */
  lemma PairValue(cols: seq<ColMeta>, c: Condition, rec: Record)
    requires Fits(cols, rec) && CharPair(cols, c, |rec|)
    ensures Right(cols, c).offset <= |rec|
    ensures var a, w := FieldOf(rec, Left(cols, c)), RightBytes(rec, Right(cols, c), Left(cols, c).len);
      CondValue(cols, c, rec) == if Decided(a, w) then Some(EvalCompare(StrCmp(a, w), c.op)) else None
    ensures ValueHolds(cols, c, rec)
      == EvalCompare(TextCmp(FieldOf(rec, Left(cols, c)), FieldOf(rec, Right(cols, c))), c.op)
  {
    hide StrCmp;
    hide TextCmp;
    hide Decided;
    PairInside(cols, c, |rec|);
  }

  /** A shorter left column: on equal letters only the values differ. */
  lemma ShortLeftWrong(cols: seq<ColMeta>, c: Condition, n: nat)
    requires CharPair(cols, c, n) && Left(cols, c).len < Right(cols, c).len && c.op != OpGt && c.op != OpLe
    ensures Fits(cols, Fill(n, 97)) && !ExactOn(cols, c, Fill(n, 97))
  {
    hide CondValue;
    hide ValueHolds;
    hide StrCmp;
    hide TextCmp;
    hide Decided;
    PairInside(cols, c, n);
    var l, r, rec := Left(cols, c), Right(cols, c), Fill(n, 97);
    PairValue(cols, c, rec);
    var a, b := FieldOf(rec, l), FieldOf(rec, r);
    StrCmpEqual(a, RightBytes(rec, r, l.len));
    TextLonger(b, a);
    TextFlip(a, b);
  }

  /** A longer left column: strncmp goes on into the bytes after the right one. */
  lemma LongLeftWrong(cols: seq<ColMeta>, c: Condition, n: nat)
    requires CharPair(cols, c, n) && Left(cols, c).len > Right(cols, c).len && c.op != OpLt && c.op != OpGe
    ensures Fits(cols, Fill(n, 97)) && !ExactOn(cols, c, Fill(n, 97))
  {
    hide CondValue;
    hide ValueHolds;
    hide StrCmp;
    hide TextCmp;
    hide Decided;
    PairInside(cols, c, n);
    var l, r, rec := Left(cols, c), Right(cols, c), Fill(n, 97);
    PairValue(cols, c, rec);
    var a, b, w := FieldOf(rec, l), FieldOf(rec, r), RightBytes(rec, r, l.len);
    if |w| < |a| { RunsOut(a, w); } else { StrCmpEqual(a, w); }
    TextLonger(a, b);
  }

  /** Two columns of letters, apart from the byte where the longer one goes on: strncmp over the shorter length finds
      them equal, strncmp over the longer length meets that byte or the end of the tuple. */
  lemma GoesOn(n: nat, short: ColMeta, long: ColMeta, b: Byte)
    requires short.offset + short.len <= n && long.offset + long.len <= n && short.len < long.len && Apart(short, long)
    requires short.offset != long.offset && b != 97 && b != 0
    ensures var rec := Letters(n, long.offset + short.len, b);
      && AgreeTo(FieldOf(rec, long), FieldOf(rec, short), short.len) && FieldOf(rec, long)[short.len] == b
      && Decided(FieldOf(rec, short), RightBytes(rec, long, short.len))
      && StrCmp(FieldOf(rec, short), RightBytes(rec, long, short.len)) == 0
      && (Decided(FieldOf(rec, long), RightBytes(rec, short, long.len)) ==>
          StrCmp(FieldOf(rec, long), RightBytes(rec, short, long.len)) == (b as int) - 97)
  {
    hide StrCmp;
    hide Decided;
    hide FieldOf;
    hide RightBytes;
    hide Letters;
    var rec := Letters(n, long.offset + short.len, b);
    var s, l, r, w := FieldOf(rec, short), FieldOf(rec, long), RightBytes(rec, long, short.len),
      RightBytes(rec, short, long.len);
    LetterBytes(n, short, long, b);
    StrCmpEqual(s, r);
    if |w| == short.len { RunsOut(l, w); } else { StrCmpAt(l, w, short.len); }
  }

  /** A run of letters 'a' up to position m. */
  ghost predicate LettersTo(s: Field, m: nat) { m <= |s| && forall i :: 0 <= i < m ==> s[i] == 97 }

  lemma LetterBytes(n: nat, short: ColMeta, long: ColMeta, b: Byte)
    requires short.offset + short.len <= n && long.offset + long.len <= n && short.len < long.len && Apart(short, long)
    requires short.offset != long.offset
    ensures var rec := Letters(n, long.offset + short.len, b);
      && LettersTo(FieldOf(rec, short), short.len) && |FieldOf(rec, short)| == short.len
      && LettersTo(FieldOf(rec, long), short.len) && |FieldOf(rec, long)| == long.len
      && FieldOf(rec, long)[short.len] == b
      && LettersTo(RightBytes(rec, long, short.len), short.len)
      && var w := RightBytes(rec, short, long.len);
      short.len <= |w| <= long.len && LettersTo(w, if |w| == short.len then short.len else short.len + 1)
  {
    SliceLetters(n, long.offset + short.len, b, short.offset, short.offset + short.len);
    SliceLetters(n, long.offset + short.len, b, long.offset, long.offset + long.len);
    SliceLetters(n, long.offset + short.len, b, long.offset, long.offset + short.len);
    SliceLetters(n, long.offset + short.len, b, short.offset,
      if short.offset + long.len <= n then short.offset + long.len else n);
  }

  lemma SliceLetters(n: nat, k: nat, b: Byte, off: nat, end: nat)
    requires off <= end <= n
    ensures |Letters(n, k, b)[off..end]| == end - off
    ensures forall i :: 0 <= i < end - off ==> Letters(n, k, b)[off..end][i] == if off + i == k then b else 97
  {
  }

  lemma LongLeftWrongOrder(cols: seq<ColMeta>, c: Condition, n: nat)
    requires CharPair(cols, c, n) && Left(cols, c).len > Right(cols, c).len
    requires Left(cols, c).offset != Right(cols, c).offset && (c.op == OpLt || c.op == OpGe)
    ensures var rec := Letters(n, Left(cols, c).offset + Right(cols, c).len, 96);
      Fits(cols, rec) && !ExactOn(cols, c, rec)
  {
    hide CondValue;
    hide ValueHolds;
    hide StrCmp;
    hide TextCmp;
    hide Decided;
    PairInside(cols, c, n);
    var l, r := Left(cols, c), Right(cols, c);
    var rec := Letters(n, l.offset + r.len, 96);
    PairValue(cols, c, rec);
    GoesOn(n, r, l, 96);
    TextLonger(FieldOf(rec, l), FieldOf(rec, r));
  }

  /** An empty right column that starts where the left one does: strncmp compares the left column with itself. */
  lemma SameStart(cols: seq<ColMeta>, c: Condition, rec: Record)
    requires Fits(cols, rec) && CharPair(cols, c, |rec|) && Left(cols, c).len > Right(cols, c).len
    requires Left(cols, c).offset == Right(cols, c).offset && (c.op == OpLt || c.op == OpGe)
    ensures ExactOn(cols, c, rec)
  {
    var l, r := Left(cols, c), Right(cols, c);
    var a, b := FieldOf(rec, l), FieldOf(rec, r);
    assert RightBytes(rec, r, l.len) == a && b == [];
    TextIsStrCmp(a, a);
    TextFlip(a, a);
  }

  /** eval_condition orders the values of two CHAR columns on every tuple if and only if the lengths are equal, or the
      left one is shorter and the operator is > or <=; the odd case is an empty column CHAR(0) that starts where the
      longer left one does. */
  lemma ComparisonExactIff(cols: seq<ColMeta>, c: Condition, n: nat)
    requires CharPair(cols, c, n)
    ensures (forall rec: Record :: |rec| == n ==> Fits(cols, rec) && ExactOn(cols, c, rec))
            <==> var l, r := Left(cols, c), Right(cols, c);
                 || Proper(l.len, r.len, c.op)
                 || (l.len > r.len && l.offset == r.offset && (c.op == OpLt || c.op == OpGe))
  {
    hide CondValue;
    hide ValueHolds;
    var l, r := Left(cols, c), Right(cols, c);
    if Proper(l.len, r.len, c.op) {
      forall rec: Record | |rec| == n ensures Fits(cols, rec) && ExactOn(cols, c, rec) { ProperMeans(cols, c, rec); }
    } else if l.len < r.len {
      ShortLeftWrong(cols, c, n);
      assert |Fill(n, 97)| == n;
    } else if c.op != OpLt && c.op != OpGe {
      LongLeftWrong(cols, c, n);
      assert |Fill(n, 97)| == n;
    } else if l.offset == r.offset {
      forall rec: Record | |rec| == n ensures Fits(cols, rec) && ExactOn(cols, c, rec) { SameStart(cols, c, rec); }
    } else {
      LongLeftWrongOrder(cols, c, n);
      assert |Letters(n, l.offset + r.len, 96)| == n;
    }
  }

  // --------------------------------------------------------------------------- operand swaps

  lemma FlipPair(cols: seq<ColMeta>, c: Condition, n: nat)
    requires CharPair(cols, c, n)
    ensures CharPair(cols, Flip(c), n) && Flip(Flip(c)) == c
    ensures Left(cols, Flip(c)) == Right(cols, c) && Right(cols, Flip(c)) == Left(cols, c)
  {
  }

  ghost predicate SwapKeepsOn(cols: seq<ColMeta>, c: Condition, rec: Record)
    requires Fits(cols, rec) && CharPair(cols, c, |rec|)
  {
    FlipPair(cols, c, |rec|);
    CondValue(cols, Flip(c), rec) == CondValue(cols, c, rec)
  }

  lemma SwapOpFlips(x: int, op: CompOp)
    ensures EvalCompare(-x, SwapOp(op)) == EvalCompare(x, op)
  {
  }

  /** The letter that shows the difference for the operator. */
  function Telling(op: CompOp): Byte { if op == OpGt || op == OpLe then 96 else 98 }

  lemma SwapShows(cols: seq<ColMeta>, c: Condition, n: nat)
    requires CharPair(cols, c, n) && Left(cols, c).len < Right(cols, c).len
    requires Left(cols, c).offset != Right(cols, c).offset
    ensures var rec := Letters(n, Right(cols, c).offset + Left(cols, c).len, Telling(c.op));
      Fits(cols, rec) && !SwapKeepsOn(cols, c, rec)
  {
    hide CondValue;
    hide ValueHolds;
    hide StrCmp;
    hide TextCmp;
    hide Decided;
    PairInside(cols, c, n);
    var l, r := Left(cols, c), Right(cols, c);
    var rec := Letters(n, r.offset + l.len, Telling(c.op));
    PairValue(cols, c, rec);
    FlipPair(cols, c, n);
    PairValue(cols, Flip(c), rec);
    GoesOn(n, l, r, Telling(c.op));
  }

  lemma SwapLike(cols: seq<ColMeta>, c: Condition, rec: Record)
    requires Fits(cols, rec) && CharPair(cols, c, |rec|)
    requires Left(cols, c).len == Right(cols, c).len || Left(cols, c).offset == Right(cols, c).offset
    ensures SwapKeepsOn(cols, c, rec)
  {
    var l, r := Left(cols, c), Right(cols, c);
    PairInside(cols, c, |rec|);
    FlipPair(cols, c, |rec|);
    var a, b := FieldOf(rec, l), FieldOf(rec, r);
    if l.len == r.len {
      assert RightBytes(rec, r, l.len) == b && RightBytes(rec, l, r.len) == a;
      TextIsStrCmp(a, b);
      TextIsStrCmp(b, a);
      TextFlip(a, b);
    } else {
      assert RightBytes(rec, r, l.len) == a && RightBytes(rec, l, r.len) == b;
      TextIsStrCmp(a, a);
      TextIsStrCmp(b, b);
      TextFlip(a, a);
      TextFlip(b, b);
    }
    SwapOpFlips(TextCmp(a, b), c.op);
  }

  /** Swapping the operands of a comparison of two CHAR columns keeps its value on every tuple if and only if the
      lengths are equal; the odd case is again an empty column that starts where the other one does. */
  lemma SwapKeepsIff(cols: seq<ColMeta>, c: Condition, n: nat)
    requires CharPair(cols, c, n)
    ensures (forall rec: Record :: |rec| == n ==> Fits(cols, rec) && SwapKeepsOn(cols, c, rec))
            <==> Left(cols, c).len == Right(cols, c).len || Left(cols, c).offset == Right(cols, c).offset
  {
    hide CondValue;
    var l, r := Left(cols, c), Right(cols, c);
    if l.len == r.len || l.offset == r.offset {
      forall rec: Record | |rec| == n ensures Fits(cols, rec) && SwapKeepsOn(cols, c, rec) { SwapLike(cols, c, rec); }
    } else if l.len < r.len {
      SwapShows(cols, c, n);
      assert |Letters(n, r.offset + l.len, Telling(c.op))| == n;
    } else {
      FlipPair(cols, c, n);
      SwapShows(cols, Flip(c), n);
      var rec := Letters(n, l.offset + r.len, Telling(Flip(c).op));
      FlipPair(cols, Flip(c), n);
      assert |rec| == n && !SwapKeepsOn(cols, c, rec);
    }
  }
}
