/** src/get_paper_references.py: check the listing page's status, turn each
    listed paper into (title, OpenReview URL, highlight), and shuffle the
    rows. The slug is what `re.search('forum-id-(.+?)-', href)[1]` finds. */
module References {

  import opened Values
  import opened Seqs
  import opened Text
  import opened Batch

  const OK: int := 200 // section 15.3.1 of RFC 9110
  const MARK: string := "forum-id-"
  const FORUM_URL: string := "https://openreview.net/forum?id="

  /** The strings extracted from one table cell: the bold link text, the link
      target, and the italic blurb. */
  datatype Link = Link(title: string, href: string, italic: string)

  /** One output row. */
  datatype Paper = Paper(title: string, url: string, highlight: string)

  /** `forum-id-(.+?)-` matches at `i` with its group ending at `j`: the
      group is non-empty, holds no newline, and `j` is the first '-' after
      the group's first character. */
  ghost predicate SlugAt(s: string, i: nat, j: nat)
  {
    && OccursAt(s, MARK, i)
    && i + |MARK| < j < |s| && s[j] == '-'
    && (forall p :: i + |MARK| <= p < j ==> s[p] != '\n')
    && (forall p :: i + |MARK| < p < j ==> s[p] != '-')
  }

  /** Extends the lazy group one character at a time from `p`. */
  function GroupEnd(s: string, i: nat, p: nat): (r: Option<nat>)
    requires OccursAt(s, MARK, i) && i + |MARK| < p <= |s|
    requires forall q :: i + |MARK| <= q < p ==> s[q] != '\n'
    requires forall q :: i + |MARK| < q < p ==> s[q] != '-'
    ensures r.Some? ==> SlugAt(s, i, r.value)
    ensures r.None? ==> forall j :: !SlugAt(s, i, j)
    decreases |s| - p
  {
    if p == |s| then None
    else if s[p] == '-' then Some(p)
    else if s[p] == '\n' then None
    else GroupEnd(s, i, p + 1)
  }

  /** Where the match starting at `i` ends, if there is one. */
  function MatchEnd(s: string, i: nat): (r: Option<nat>)
    requires OccursAt(s, MARK, i)
    ensures r.Some? ==> SlugAt(s, i, r.value)
    ensures r.None? ==> forall j :: !SlugAt(s, i, j)
  {
    if i + |MARK| < |s| && s[i + |MARK|] != '\n' then GroupEnd(s, i, i + |MARK| + 1) else None
  }

  /** The leftmost match at or after `i`. */
  function SearchFrom(s: string, i: nat): (r: Option<(nat, nat)>)
    ensures r.Some? ==> i <= r.value.0 && SlugAt(s, r.value.0, r.value.1)
    ensures r.Some? ==> forall i', j :: i <= i' < r.value.0 ==> !SlugAt(s, i', j)
    ensures r.None? ==> forall i', j :: i <= i' ==> !SlugAt(s, i', j)
    decreases |s| - i
  {
    if i + |MARK| > |s| then None
    else if OccursAt(s, MARK, i) && MatchEnd(s, i).Some? then Some((i, MatchEnd(s, i).value))
    else SearchFrom(s, i + 1)
  }

  /** The regex's group, if it matches. */
  function Slug(href: string): Option<string>
  {
    match SearchFrom(href, 0)
    case None => None
    case Some((i, j)) => Some(href[i + |MARK|..j])
  }

  /** The slug is the group of the leftmost match: the shortest non-empty
      run of non-newline characters after a `forum-id-` that is followed by
      '-'. It is absent exactly when no `forum-id-` is followed that way. */
  lemma SlugIsLeftmostMatch(href: string)
    ensures Slug(href).Some? ==> exists i: nat, j: nat :: && SlugAt(href, i, j)
                                                && Slug(href).value == href[i + |MARK|..j]
                                                && (forall i': nat, j': nat :: i' < i ==> !SlugAt(href, i', j'))
    ensures Slug(href).None? <==> forall i: nat, j: nat :: !SlugAt(href, i, j)
  {
    var r := SearchFrom(href, 0);
    if r.Some? {
      var i, j := r.value.0, r.value.1;
      assert SlugAt(href, i, j) && Slug(href).value == href[i + |MARK|..j];
    }
  }

  /** A slug is never empty and never contains a newline; only its first
      character can be '-'. */
  lemma SlugShape(href: string)
    requires Slug(href).Some?
    ensures var slug := Slug(href).value;
      && |slug| >= 1
      && (forall p :: 0 <= p < |slug| ==> slug[p] != '\n')
      && (forall p :: 1 <= p < |slug| ==> slug[p] != '-')
  {
    SlugIsLeftmostMatch(href);
  }

  /** One cell's row: a link without a slug raises TypeError and stops the
      script. The highlight drops the blurb's leading ": ". */
  function PaperFor(link: Link): (r: Outcome<Paper>)
    ensures r.Failed? <==> Slug(link.href).None?
    ensures r.Done? ==> r.value.title == link.title && r.value.url == FORUM_URL + Slug(link.href).value
    ensures r.Done? ==> |link.italic| >= 2 ==> link.italic == link.italic[..2] + r.value.highlight
    ensures r.Done? ==> |link.italic| < 2 ==> r.value.highlight == ""
  {
    match Slug(link.href)
    case None => Failed(NoSlug)
    case Some(slug) => Done(Paper(link.title, FORUM_URL + slug, Slice(link.italic, 2, |link.italic|)))
  }

  /** Every cell's row, in document order. */
  function PapersFor(links: seq<Link>): (r: seq<Outcome<Paper>>)
    ensures |r| == |links| && forall i :: 0 <= i < |links| ==> r[i] == PaperFor(links[i])
  {
    seq(|links|, i requires 0 <= i < |links| => PaperFor(links[i]))
  }

  /** `main`: a status other than 200 raises before any row is read; then
      one row per cell in document order, shuffled by the seeded
      permutation `perm`, which adds and drops nothing. */
  method GetPaperReferences(status: int, links: seq<Link>, perm: seq<nat>) returns (out: Outcome<seq<Paper>>)
    requires IsPermutation(perm, |links|)
    ensures status != OK ==> out == Failed(BadStatus(status))
    ensures status == OK ==> var rows := AllDone(PapersFor(links));
      && (rows.Failed? ==> out == Failed(rows.reason))
      && (rows.Done? ==> out == Done(Permute(rows.value, perm)) && multiset(out.value) == multiset(rows.value))
  {
    if status != OK {
      return Failed(BadStatus(status));
    }
    var rows := PapersFor(links);
    var output: seq<Paper> := [];
    for i := 0 to |links|
      invariant |output| == i
      invariant forall j :: 0 <= j < i ==> rows[j] == Done(output[j])
    {
      var slug := Slug(links[i].href);
      if slug.None? {
        FirstFailure(rows, i);
        return Failed(NoSlug);
      }
      var url := FORUM_URL + slug.value;
      var blurb := Slice(links[i].italic, 2, |links[i].italic|);
      output := output + [Paper(links[i].title, url, blurb)];
    }
    NoFailure(rows, output);
    PermuteKeepsRows(output, perm);
    return Done(Permute(output, perm));
  }
}
