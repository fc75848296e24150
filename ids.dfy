/**
 * Recognition of commit identifiers: the pattern `^[0-9a-f]{40}$` that the
 * table engine applies to every value whose column name ends in `_id`.
 */
module Ids {
  import opened Wrappers

  /** Length of a commit hash in hexadecimal digits. */
  const IdLength: nat := 40

  predicate IsHexDigit(c: char) {
    '0' <= c <= '9' || 'a' <= c <= 'f'
  }

  /**
   * Matches `[0-9a-f]{k}` at the start of `s` and returns what is left,
   * or None when fewer than `k` leading characters are hex digits.
   */
  function MatchHex(s: string, k: nat): (rest: Option<string>)
    ensures rest.Some? <==> k <= |s| && forall i :: 0 <= i < k ==> IsHexDigit(s[i])
    ensures rest.Some? ==> rest.value == s[k..]
  {
    if k == 0 then Some(s)
    else if s != [] && IsHexDigit(s[0]) then
      var rest := MatchHex(s[1..], k - 1);
      assert forall i :: 1 <= i < k && k <= |s| ==> s[i] == s[1..][i - 1];
      rest
    else None
  }

  /**
   * The pattern as Python's `re` evaluates it: `$` matches at the end of the
   * string and also just before a single newline that ends the string.
   */
  predicate RegexIdMatch(s: string) {
    match MatchHex(s, IdLength)
    case None => false
    case Some(rest) => rest == "" || rest == "\n"
  }

  /** A commit identifier: exactly 40 lowercase hexadecimal digits. */
  predicate IsCommitId(s: string)
    ensures IsCommitId(s) <==> |s| == IdLength && forall i :: 0 <= i < |s| ==> IsHexDigit(s[i])
  {
    MatchHex(s, IdLength) == Some("")
  }

  /** `key.endswith("_id")`. */
  predicate EndsWithId(key: string) {
    |key| >= 3 && key[|key| - 3..] == "_id"
  }

  /** The identifier pattern as written accepts exactly the commit identifiers and those followed by one newline. */
  lemma RegexIdMatchIsIdWithOptionalNewline(s: string)
    ensures RegexIdMatch(s) <==> IsCommitId(s) || (|s| == IdLength + 1 && s[IdLength] == '\n' && IsCommitId(s[..IdLength]))
  {
    var m := MatchHex(s, IdLength);
    if |s| == IdLength + 1 && s[IdLength] == '\n' && IsCommitId(s[..IdLength]) {
      assert forall i :: 0 <= i < IdLength ==> s[i] == s[..IdLength][i];
      assert m.Some?;
      assert m.value == s[IdLength..] == "\n";
    }
  }

  /** A hash followed by a newline is accepted by the pattern as written but is not a commit identifier. */
  lemma RegexIdMatchAcceptsTrailingNewline()
    ensures var s := seq(IdLength, _ => 'a') + "\n"; RegexIdMatch(s) && !IsCommitId(s)
  {
    var s := seq(IdLength, _ => 'a') + "\n";
    assert s[..IdLength] == seq(IdLength, _ => 'a');
    RegexIdMatchIsIdWithOptionalNewline(s);
  }

  /** The system column `id` is not validated as a commit identifier; the `_id` columns of the three tables are. */
  lemma IdColumnsByName()
    ensures !EndsWithId("id")
    ensures EndsWithId("commit_id") && EndsWithId("patch_id") && EndsWithId("fixes_id")
    ensures !EndsWithId("fixes") && !EndsWithId("created_at") && !EndsWithId("updated_at")
  {
    assert "commit_id"[6..] == "_id";
    assert "patch_id"[5..] == "_id";
    assert "fixes_id"[5..] == "_id";
  }
}
