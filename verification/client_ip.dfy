/**
  Client identity: the first comma-separated field of `x-forwarded-for`,
  trimmed, else the connection's peer address, else "unknown".
 */
module ClientIdentity {
  import opened Wrappers

  /**
    The characters `String.prototype.trim` removes: the ECMAScript
    WhiteSpace and LineTerminator code points, the Unicode Zs category
    included.
   */
  predicate IsWhitespace(c: char)
  {
    || c == '\t' || c == '\n' || c == '\U{B}' || c == '\U{C}' || c == '\r' || c == ' '
    || c == '\U{A0}' || c == '\U{1680}' || ('\U{2000}' <= c <= '\U{200A}')
    || c == '\U{2028}' || c == '\U{2029}' || c == '\U{202F}' || c == '\U{205F}'
    || c == '\U{3000}' || c == '\U{FEFF}'
  }

  /** Every character of `s` at a position in `[lo, hi)` is whitespace. */
  predicate WhitespaceBetween(s: string, lo: nat, hi: nat)
    requires lo <= hi <= |s|
  {
    forall k :: lo <= k < hi ==> IsWhitespace(s[k])
  }

  /** `h.split(",")[0]`: the longest prefix of `h` without a comma. */
  function FirstField(h: string): (r: string)
    ensures r <= h
    ensures ',' !in r
    ensures |r| == |h| || h[|r|] == ','
  {
    if |h| == 0 || h[0] == ',' then [] else [h[0]] + FirstField(h[1..])
  }

  /** The number of whitespace characters that open `s`. */
  function LeadingWhitespace(s: string): (n: nat)
    ensures n <= |s|
    ensures WhitespaceBetween(s, 0, n)
    ensures n == |s| || !IsWhitespace(s[n])
  {
    if |s| > 0 && IsWhitespace(s[0]) then
      var n := 1 + LeadingWhitespace(s[1..]);
      assert forall k :: 1 <= k < n ==> s[k] == s[1..][k - 1];
      n
    else 0
  }

  /** The number of whitespace characters that close `s`. */
  function TrailingWhitespace(s: string): (n: nat)
    ensures n <= |s|
    ensures WhitespaceBetween(s, |s| - n, |s|)
    ensures n == |s| || !IsWhitespace(s[|s| - n - 1])
  {
    if |s| > 0 && IsWhitespace(s[|s| - 1]) then
      var p := s[..|s| - 1];
      var n := 1 + TrailingWhitespace(p);
      assert forall k :: |s| - n <= k < |s| - 1 ==> s[k] == p[k];
      n
    else 0
  }

  /**
    `String.prototype.trim`: the slice of `s` left after removing the
    whitespace at both ends.
   */
  function Trim(s: string): (r: string)
    ensures r == [] || (!IsWhitespace(r[0]) && !IsWhitespace(r[|r| - 1]))
    ensures exists i :: (0 <= i <= |s| - |r| && r == s[i..i + |r|]
                         && WhitespaceBetween(s, 0, i) && WhitespaceBetween(s, i + |r|, |s|))
  {
    var i := LeadingWhitespace(s);
    if i == |s| then
      assert s[|s|..|s|] == [];
      []
    else
      var j := |s| - TrailingWhitespace(s);
      assert s[i..j] == s[i..i + (j - i)];
      s[i..j]
  }

  /** Every character of the trimmed string occurs in the original. */
  lemma TrimKeepsCharacters(s: string)
    ensures forall c :: c in Trim(s) ==> c in s
  {
    var r := Trim(s);
    var i := LeadingWhitespace(s);
    if i < |s| {
      var j := |s| - TrailingWhitespace(s);
      assert i < j && r == s[i..j];
      forall c | c in r
        ensures c in s
      {
        var k :| 0 <= k < |r| && r[k] == c;
        assert s[i + k] == c;
      }
    }
  }

  lemma WhitespaceInPrefix(h: string, k: nat, lo: nat, hi: nat)
    requires lo <= hi <= k <= |h|
    requires WhitespaceBetween(h, lo, hi)
    ensures WhitespaceBetween(h[..k], lo, hi)
  {
    assert forall m :: lo <= m < hi ==> h[..k][m] == h[m];
  }

  /** The first field of `h` is `h[..k]` when `k` is its first comma or its end. */
  lemma FirstFieldUpTo(h: string, k: nat)
    requires k <= |h| && ',' !in h[..k] && (k == |h| || h[k] == ',')
    ensures FirstField(h) == h[..k]
  {
    var field := FirstField(h);
    assert field == h[..|field|];
    assert forall m :: 0 <= m < k ==> h[m] == h[..k][m];
    assert forall m :: 0 <= m < |field| ==> h[m] == field[m];
  }

  /**
    Trim is the unique slice `s[i..j]` with only whitespace around it that is
    empty or neither starts nor ends with whitespace.
   */
  lemma TrimCharacterization(s: string, i: nat, j: nat)
    requires i <= j <= |s|
    requires WhitespaceBetween(s, 0, i) && WhitespaceBetween(s, j, |s|)
    requires i == j || (!IsWhitespace(s[i]) && !IsWhitespace(s[j - 1]))
    ensures Trim(s) == s[i..j]
  {
    var lead := LeadingWhitespace(s);
    var trail := TrailingWhitespace(s);
    if i == j {
      assert WhitespaceBetween(s, 0, |s|);
      assert lead == |s|;
    } else {
      assert lead == i;
      assert |s| - trail == j;
    }
  }

  /**
    The identity of a request. `forwardedFor` is the `x-forwarded-for`
    header and `remoteAddress` the socket's peer address; an absent value
    and the empty string both count as missing, as in the source's
    truthiness tests.
   */
  function GetClientIP(forwardedFor: Option<string>, remoteAddress: Option<string>): (r: string)
    ensures forwardedFor.Some? && forwardedFor.value != [] ==>
      && ',' !in r
      && (r == [] || (!IsWhitespace(r[0]) && !IsWhitespace(r[|r| - 1])))
      && |r| <= |FirstField(forwardedFor.value)|
    ensures (forwardedFor.None? || forwardedFor.value == []) ==>
      && r != []
      && (r == "unknown" <==> remoteAddress.None? || remoteAddress.value in {[], "unknown"})
      && (r != "unknown" ==> remoteAddress == Some(r))
  {
    if forwardedFor.Some? && forwardedFor.value != [] then
      var field := FirstField(forwardedFor.value);
      TrimKeepsCharacters(field);
      Trim(field)
    else if remoteAddress.Some? && remoteAddress.value != [] then remoteAddress.value
    else "unknown"
  }

  /**
    With a non-empty header, the identity is the slice `h[i..j]` of its
    first field `h[..k]` once the whitespace around it is cut away.
   */
  lemma ClientIPFromHeader(h: string, remoteAddress: Option<string>, k: nat, i: nat, j: nat)
    requires h != []
    requires k <= |h| && ',' !in h[..k] && (k == |h| || h[k] == ',')
    requires i <= j <= k
    requires WhitespaceBetween(h, 0, i) && WhitespaceBetween(h, j, k)
    requires i == j || (!IsWhitespace(h[i]) && !IsWhitespace(h[j - 1]))
    ensures GetClientIP(Some(h), remoteAddress) == h[i..j]
  {
    var field := h[..k];
    FirstFieldUpTo(h, k);
    WhitespaceInPrefix(h, k, 0, i);
    WhitespaceInPrefix(h, k, j, k);
    assert field[i..j] == h[i..j];
    if i < j {
      assert field[i] == h[i] && field[j - 1] == h[j - 1];
    }
    TrimCharacterization(field, i, j);
  }
}
