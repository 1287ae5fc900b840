/**
 * The wildcard step of the flexible query parser: it decides whether the
 * text of a field term is a prefix query (`foo*`), a general wildcard query
 * (`f?o*bar`) or a plain term, and rewrites the node accordingly.
 *
 * A term's text remembers which of its characters were escaped by the user
 * (`\*` is a literal star). That bookkeeping lives in a character-sequence
 * class outside this model; here it is the flag sequence `wasEscaped`.
 */
module Wildcard {

  /** The text of a term together with the positions that were escaped. */
  datatype TermText = TermText(chars: seq<char>, wasEscaped: seq<bool>)

  /** Whether the character at `i` was escaped. A text that carries no flags
      for a position (a plain character sequence) reports it as unescaped. */
  predicate WasEscaped(t: TermText, i: nat) {
    i < |t.wasEscaped| && t.wasEscaped[i]
  }

  /** An unescaped `*` or `?` at position `i`. */
  predicate IsWildcardAt(t: TermText, i: nat)
    requires i < |t.chars|
  {
    (t.chars[i] == '*' || t.chars[i] == '?') && !WasEscaped(t, i)
  }

  /** The loop of IsWildcard: scans positions `i-1` down to 0. */
  function AnyWildcardBelow(t: TermText, i: nat): (r: bool)
    requires i <= |t.chars|
    ensures r <==> exists j :: 0 <= j < i && IsWildcardAt(t, j)
  {
    if i == 0 then false
    else if IsWildcardAt(t, i - 1) then true
    else AnyWildcardBelow(t, i - 1)
  }

  /** True iff some position holds a `*` or `?` that was not escaped. */
  function IsWildcard(t: TermText): (r: bool)
    ensures r <==> |t.chars| > 0 && exists j :: 0 <= j < |t.chars| && IsWildcardAt(t, j)
  {
    if |t.chars| <= 0 then false
    else AnyWildcardBelow(t, |t.chars|)
  }

  /** The final scan of IsPrefixWildcard over positions `i`, `i+1`, ...: any
      `?` (escaped or not) rejects, and the first unescaped `*` accepts exactly
      when it is the last character. */
  function PrefixScan(t: TermText, i: nat): (r: bool)
    requires i <= |t.chars|
    decreases |t.chars| - i
  {
    if i == |t.chars| then false
    else if t.chars[i] == '?' then false
    else if t.chars[i] == '*' && !WasEscaped(t, i) then i == |t.chars| - 1
    else PrefixScan(t, i + 1)
  }

  /** Nothing before the last position stops the prefix scan. */
  ghost predicate PlainBeforeLast(t: TermText)
    requires |t.chars| > 0
  {
    forall j :: 0 <= j < |t.chars| - 1 ==>
      t.chars[j] != '?' && !(t.chars[j] == '*' && !WasEscaped(t, j))
  }

  lemma {:induction false} PrefixScanMeaning(t: TermText, i: nat)
    requires i < |t.chars|
    requires t.chars[|t.chars| - 1] == '*' && !WasEscaped(t, |t.chars| - 1)
    ensures PrefixScan(t, i) <==>
      forall j :: i <= j < |t.chars| - 1 ==>
        t.chars[j] != '?' && !(t.chars[j] == '*' && !WasEscaped(t, j))
    decreases |t.chars| - i
  {
    if i < |t.chars| - 1 {
      PrefixScanMeaning(t, i + 1);
    }
  }

  /** True iff the text is a prefix query: it ends in an unescaped `*`, is
      longer than that single star, and before the star has no `?` at all and
      no unescaped `*`. */
  function IsPrefixWildcard(t: TermText): (r: bool)
    ensures r ==> IsWildcard(t)
    ensures r <==>
      |t.chars| > 1 && t.chars[|t.chars| - 1] == '*' && !WasEscaped(t, |t.chars| - 1)
      && PlainBeforeLast(t)
  {
    var n := |t.chars|;
    if n <= 0 || !IsWildcard(t) then false
    else if t.chars[n - 1] != '*' then false
    else if WasEscaped(t, n - 1) then false
    else if n == 1 then false
    else
      PrefixScanMeaning(t, 0);
      assert IsWildcardAt(t, n - 1);
      PrefixScan(t, 0)
  }

  /**
   * The classes of query nodes the processor tells apart. The field-term
   * classes (a plain field term and its fuzzy, quoted, wildcard and
   * prefix-wildcard refinements) are all field query nodes; `OtherNode`
   * stands for every node that is not.
   */
  datatype NodeKind = FieldTerm | Fuzzy | QuotedField | WildcardTerm | PrefixWildcardTerm | OtherNode

  /** A query node: its class, its field and text, and whether its parent is
      a term-range node. */
  datatype QueryNode = QueryNode(kind: NodeKind, field: string, text: TermText, parentIsTermRange: bool)

  predicate IsFieldQueryNode(n: QueryNode) {
    n.kind != OtherNode
  }

  /** The processor leaves the node alone: not a field term, a quoted term,
      a child of a range, or empty text. */
  predicate Untouched(n: QueryNode) {
    !IsFieldQueryNode(n) || n.parentIsTermRange || n.kind == QuotedField || |n.text.chars| <= 0
  }

  /** The rewrite applied after a node's children were processed. The new
      wildcard nodes copy field and text from the node they replace. */
  function PostProcessNode(n: QueryNode): (r: QueryNode)
    ensures Untouched(n) ==> r == n
    ensures !Untouched(n) && IsPrefixWildcard(n.text) ==> r == n.(kind := PrefixWildcardTerm)
    ensures !Untouched(n) && !IsPrefixWildcard(n.text) && IsWildcard(n.text) ==> r == n.(kind := WildcardTerm)
    ensures !Untouched(n) && !IsWildcard(n.text) ==> r == n
    ensures r.field == n.field && r.text == n.text && r.parentIsTermRange == n.parentIsTermRange
  {
    if IsFieldQueryNode(n) then
      if n.parentIsTermRange || n.kind == QuotedField || |n.text.chars| <= 0 then n
      else if IsPrefixWildcard(n.text) then n.(kind := PrefixWildcardTerm)
      else if IsWildcard(n.text) then n.(kind := WildcardTerm)
      else n
    else n
  }

  /** Running the processor twice gives what running it once gives. */
  lemma PostProcessIdempotent(n: QueryNode)
    ensures PostProcessNode(PostProcessNode(n)) == PostProcessNode(n)
  {
  }

  /** A prefix wildcard is never demoted to a general wildcard, and text that
      is no wildcard at all never produces a wildcard node. */
  lemma PostProcessKinds(n: QueryNode)
    ensures PostProcessNode(n).kind == PrefixWildcardTerm ==>
      n.kind == PrefixWildcardTerm || IsPrefixWildcard(n.text)
    ensures !IsWildcard(n.text) ==> PostProcessNode(n) == n
  {
  }

  /** The processor does nothing before a node's children are processed. */
  function PreProcessNode(n: QueryNode): (r: QueryNode)
    ensures r == n
  {
    n
  }

  /** The processor keeps the children in the order it was given. */
  function SetChildrenOrder(children: seq<QueryNode>): (r: seq<QueryNode>)
    ensures r == children
  {
    children
  }

  /** `a*` is a prefix query, `*` alone and `a*b` are not, `a?*` is a plain
      wildcard, and an escaped star is no wildcard at all. */
  lemma Examples()
    ensures IsPrefixWildcard(TermText("a*", []))
    ensures !IsPrefixWildcard(TermText("*", [])) && IsWildcard(TermText("*", []))
    ensures !IsPrefixWildcard(TermText("a*b", [])) && IsWildcard(TermText("a*b", []))
    ensures !IsPrefixWildcard(TermText("a?*", [])) && IsWildcard(TermText("a?*", []))
    ensures !IsWildcard(TermText("a*", [false, true]))
  {
    assert IsWildcardAt(TermText("*", []), 0);
    assert IsWildcardAt(TermText("a*b", []), 1);
    assert IsWildcardAt(TermText("a?*", []), 1);
    assert forall j :: 0 <= j < 2 ==> !IsWildcardAt(TermText("a*", [false, true]), j);
  }
}
