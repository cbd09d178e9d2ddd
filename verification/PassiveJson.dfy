/** Passive Python data handed to the request codec and to fingerprints: scalars, lists,
    tuples and mappings in iteration order. */
module PassiveJson {
  import opened Basics
  import opened JsonText

  /** A float is its `repr` text, or not finite. */
  datatype Float = Finite(text: string) | NonFinite

  datatype Key = TextKey(text: string) | OtherKey(id: int)

  datatype Raw =
    | RNull | RBool(b: bool) | RInt(i: int) | RFloat(f: Float) | RText(s: string)
    | RSequence(items: seq<Raw>, isTuple: bool)
    | RMapping(entries: seq<Member>)
    | ROther(id: int)

  datatype Member = Member(key: Key, value: Raw)

  /** The keys of a Python mapping are distinct. */
  predicate DistinctKeys(entries: seq<Member>) {
    forall i, j :: 0 <= i < j < |entries| ==> entries[i].key != entries[j].key
  }

  /** `str.isspace` for one character. */
  predicate IsWhite(c: char) {
    var n := c as int;
    || 0x09 <= n <= 0x0D || 0x1C <= n <= 0x20 || n == 0x85 || n == 0xA0 || n == 0x1680
    || 0x2000 <= n <= 0x200A || n == 0x2028 || n == 0x2029 || n == 0x202F || n == 0x205F || n == 0x3000
  }

  function StripRight(s: string): string {
    if s != "" && IsWhite(s[|s| - 1]) then StripRight(s[..|s| - 1]) else s
  }

  /** `str.strip()` */
  function Strip(s: string): string {
    if s != "" && IsWhite(s[0]) then Strip(s[1..]) else StripRight(s)
  }

  lemma {:induction false} StripRightEnds(s: string)
    ensures var r := StripRight(s); r == "" || !IsWhite(r[|r| - 1])
    ensures s != "" && !IsWhite(s[0]) ==> StripRight(s) != "" && StripRight(s)[0] == s[0]
  {
    if s != "" && IsWhite(s[|s| - 1]) { StripRightEnds(s[..|s| - 1]); }
  }

  lemma {:induction false} StripEnds(s: string)
    ensures var r := Strip(s); r == "" || (!IsWhite(r[0]) && !IsWhite(r[|r| - 1]))
  {
    if s != "" && IsWhite(s[0]) { StripEnds(s[1..]); } else { StripRightEnds(s); }
  }

  lemma {:induction false} StripIsIdempotent(s: string)
    ensures Strip(Strip(s)) == Strip(s)
  {
    StripEnds(s);
  }
  /** The 29 characters that count as white space, by their codes. */
  lemma {:induction false} WhiteExactly(c: char)
    ensures IsWhite(c) <==> c as int in {
      9, 10, 11, 12, 13, 28, 29, 30, 31, 32, 133, 160, 5760, 8192, 8193, 8194, 8195, 8196, 8197, 8198, 8199, 8200, 8201,
      8202, 8232, 8233, 8239, 8287, 12288}
  {
  }

  predicate AllWhite(s: string) {
    forall i :: 0 <= i < |s| ==> IsWhite(s[i])
  }

  /** Neither end is white. */
  predicate IsTrimmed(s: string) {
    s == "" || (!IsWhite(s[0]) && !IsWhite(s[|s| - 1]))
  }

  lemma {:induction false} StripRightExactly(core: string, after: string)
    requires AllWhite(after) && (core == "" || !IsWhite(core[|core| - 1]))
    ensures StripRight(core + after) == core
  {
    if after == "" {
      assert core + after == core;
    } else {
      var n := |after| - 1;
      assert (core + after)[..|core + after| - 1] == core + after[..n];
      assert (core + after)[|core + after| - 1] == after[n];
      StripRightExactly(core, after[..n]);
    }
  }

  /** White space before and after a trimmed text is removed, and nothing else. */
  lemma {:induction false} StripsExactly(before: string, core: string, after: string)
    requires AllWhite(before) && AllWhite(after) && IsTrimmed(core)
    ensures Strip(before + core + after) == core
    decreases |before|
  {
    var s := before + core + after;
    if before != "" {
      assert s[1..] == before[1..] + core + after && s[0] == before[0];
      StripsExactly(before[1..], core, after);
    } else if core == "" {
      assert s == after;
      StripAllWhite(after);
    } else {
      assert s == core + after && s[0] == core[0];
      StripRightExactly(core, after);
    }
  }

  lemma {:induction false} StripAllWhite(s: string)
    requires AllWhite(s)
    ensures Strip(s) == ""
  {
    if s != "" { StripAllWhite(s[1..]); }
  }

  /** Something is left exactly when some character is not white. */
  lemma {:induction false} StripLeavesSomething(s: string)
    ensures Strip(s) != "" <==> exists i :: 0 <= i < |s| && !IsWhite(s[i])
  {
    if s == "" {
    } else if IsWhite(s[0]) {
      StripLeavesSomething(s[1..]);
      if i :| 0 <= i < |s| && !IsWhite(s[i]) { assert s[1..][i - 1] == s[i]; }
      if i :| 0 <= i < |s[1..]| && !IsWhite(s[1..][i]) { assert s[i + 1] == s[1..][i]; }
    } else {
      StripRightEnds(s);
    }
  }
}
