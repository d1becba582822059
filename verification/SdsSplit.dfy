/** Splitting a byte string at a separator and joining tokens with it. */
module SdsSplit {
  import opened Bytes

  ghost predicate OccursAt(s: seq<byte>, sep: seq<byte>, k: int) {
    0 <= k && k + |sep| <= |s| && s[k..k + |sep|] == sep
  }

  ghost predicate Contains(s: seq<byte>, sep: seq<byte>) {
    exists k :: OccursAt(s, sep, k)
  }

  /** The tokens in order with the separator between each two of them. */
  function Joined(tokens: seq<seq<byte>>, sep: seq<byte>): seq<byte> {
    if tokens == [] then []
    else if |tokens| == 1 then tokens[0]
    else Joined(tokens[..|tokens| - 1], sep) + sep + tokens[|tokens| - 1]
  }

  /** Every token followed by the separator. */
  function Terminated(tokens: seq<seq<byte>>, sep: seq<byte>): seq<byte> {
    if tokens == [] then [] else Terminated(tokens[..|tokens| - 1], sep) + tokens[|tokens| - 1] + sep
  }

  lemma {:induction false} JoinedSnoc(tokens: seq<seq<byte>>, last: seq<byte>, sep: seq<byte>)
    ensures Joined(tokens + [last], sep) == Terminated(tokens, sep) + last
  {
    assert (tokens + [last])[..|tokens|] == tokens;
    if tokens != [] {
      var n := |tokens| - 1;
      JoinedSnoc(tokens[..n], tokens[n], sep);
      assert tokens[..n] + [tokens[n]] == tokens;
    }
  }

  /** The separator after the token is the first one from the start of the token on. */
  ghost predicate EndsAtFirst(token: seq<byte>, sep: seq<byte>) {
    forall k :: 0 <= k < |token| ==> !OccursAt(token + sep, sep, k)
  }

  /** Fails for an empty separator; the empty string has no tokens at all. */
  method SplitLen(s: seq<byte>, sep: seq<byte>) returns (tokens: Option<seq<seq<byte>>>)
    ensures tokens == None <==> sep == []
    ensures sep != [] && s == [] ==> tokens == Some([])
    ensures sep != [] && s != [] ==> tokens.value != []
    ensures sep != [] ==> Joined(tokens.value, sep) == s
    ensures sep != [] ==> forall i :: 0 <= i < |tokens.value| ==> !Contains(tokens.value[i], sep)
    ensures sep != [] ==> forall i :: 0 <= i < |tokens.value| - 1 ==> EndsAtFirst(tokens.value[i], sep)
  {
    hide Contains, EndsAtFirst, Terminated, Joined;
    NothingYet(sep);
    if |sep| < 1 {
      return None;
    }
    if |s| == 0 {
      return Some([]);
    }
    var out: seq<seq<byte>> := [];
    var start, j := 0, 0;
    while j < |s| - (|sep| - 1)
      invariant 0 <= start <= |s| && start <= j
      invariant Terminated(out, sep) == s[..start]
      invariant forall i :: 0 <= i < |out| ==> !Contains(out[i], sep) && EndsAtFirst(out[i], sep)
      invariant forall k :: start <= k < j ==> !OccursAt(s, sep, k)
      decreases |s| - j
    {
      if (|sep| == 1 && s[j] == sep[0]) || s[j..j + |sep|] == sep {
        TakeToken(out, s, sep, start, j);
        out := out + [s[start..j]];
        start := j + |sep|;
        j := j + |sep| - 1;
      }
      j := j + 1;
    }
    NoneInside(s, sep, start, |s|);
    assert s[start..|s|] == s[start..];
    JoinedSnoc(out, s[start..], sep);
    out := out + [s[start..]];
    return Some(out);
  }

  lemma NothingYet(sep: seq<byte>)
    ensures Joined([], sep) == [] == Terminated([], sep)
  {
  }

  /** The separator at j ends a token. */
  lemma TakeToken(out: seq<seq<byte>>, s: seq<byte>, sep: seq<byte>, start: nat, j: nat)
    requires sep != [] && start <= j && j + |sep| <= |s| && (s[j..j + |sep|] == sep || (|sep| == 1 && s[j] == sep[0]))
    requires Terminated(out, sep) == s[..start] && forall k :: start <= k < j ==> !OccursAt(s, sep, k)
    ensures Terminated(out + [s[start..j]], sep) == s[..j + |sep|]
    ensures !Contains(s[start..j], sep) && EndsAtFirst(s[start..j], sep)
  {
    assert OccursAt(s, sep, j) by {
      assert |sep| == 1 ==> s[j..j + 1] == [s[j]] && sep == [sep[0]];
    }
    NoneInside(s, sep, start, j);
    FirstInside(s, sep, start, j);
    assert (out + [s[start..j]])[..|out|] == out;
    UpTo(s, sep, start, j);
  }

  lemma SliceOfSlice(s: seq<byte>, a: nat, b: nat, k: nat, n: nat)
    requires a + k + n <= b <= |s|
    ensures s[a..b][k..k + n] == s[a + k..a + k + n]
  {
    var part, there := s[a..b][k..k + n], s[a + k..a + k + n];
    assert forall i :: 0 <= i < n ==> part[i] == there[i];
  }

  lemma FirstInside(s: seq<byte>, sep: seq<byte>, start: nat, j: nat)
    requires start <= j && OccursAt(s, sep, j) && forall k :: start <= k < j ==> !OccursAt(s, sep, k)
    ensures EndsAtFirst(s[start..j], sep)
  {
    var token := s[start..j];
    assert token + sep == s[start..j + |sep|];
    forall k | 0 <= k < |token| ensures !OccursAt(token + sep, sep, k) {
      SliceOfSlice(s, start, j + |sep|, k, |sep|);
      assert !OccursAt(s, sep, start + k);
    }
  }

  lemma UpTo(s: seq<byte>, sep: seq<byte>, start: nat, j: nat)
    requires start <= j && OccursAt(s, sep, j)
    ensures j + |sep| <= |s| && s[..start] + s[start..j] + sep == s[..j + |sep|]
  {
    assert s[..start] + s[start..j] == s[..j];
    assert s[..j] + s[j..j + |sep|] == s[..j + |sep|];
  }

  /** A stretch in which the separator starts nowhere does not contain it. */
  lemma NoneInside(s: seq<byte>, sep: seq<byte>, start: nat, end: nat)
    requires start <= end <= |s| && sep != []
    requires forall k :: start <= k < end && k + |sep| <= end ==> !OccursAt(s, sep, k)
    ensures !Contains(s[start..end], sep)
  {
    forall k | OccursAt(s[start..end], sep, k) ensures false {
      var part := s[start..end];
      var found, there := part[k..k + |sep|], s[start + k..start + k + |sep|];
      assert forall i :: 0 <= i < |sep| ==> found[i] == there[i];
      assert found == there;
      assert OccursAt(s, sep, start + k);
    }
  }

  method JoinSds(argv: seq<seq<byte>>, sep: seq<byte>) returns (join: seq<byte>)
    ensures join == Joined(argv, sep)
  {
    join := [];
    for j := 0 to |argv|
      invariant join == if j < |argv| then Terminated(argv[..j], sep) else Joined(argv, sep)
    {
      assert argv[..j + 1] == argv[..j] + [argv[j]];
      JoinedSnoc(argv[..j], argv[j], sep);
      join := join + argv[j];
      if j != |argv| - 1 {
        join := join + sep;
      }
    }
  }

  /** Splitting and joining with the same separator gives the string back. */
  method SplitThenJoin(s: seq<byte>, sep: seq<byte>) returns (r: seq<byte>)
    requires sep != []
    ensures r == s
  {
    var tokens := SplitLen(s, sep);
    r := JoinSds(tokens.value, sep);
  }
}
