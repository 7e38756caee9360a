/** `slugify_field` (utils/models.py): a unique slug built from a field.
    The `slugify` library and the random suffix generator are foreign; they
    are parameters here. `randomString(i)` is what the generator returns on
    its i-th call. */
module Slugs {

  /** Characters the separator and random suffix take: '-' plus five. */
  const SuffixWidth := 6
  /** Length of the random suffix. */
  const RandomLength := 5

  /** Python's `s[:n]`: the first n characters; a negative n drops that many
      characters from the end. */
  function PyPrefix(s: string, n: int): (r: string)
    ensures r <= s
    ensures 0 <= n ==> |r| == (if n < |s| then n else |s|)
    ensures n < 0 ==> |r| == (if -n < |s| then |s| + n else 0)
  {
    if 0 <= n then (if n < |s| then s[..n] else s)
    else if -n < |s| then s[..|s| + n]
    else []
  }

  /** The part of every candidate that does not change between attempts. */
  function SlugPrefix(field: string, maxLength: int, slugify: string -> string): string
  {
    slugify(PyPrefix(field, maxLength - SuffixWidth))
  }

  /** One candidate slug: prefix, '-', suffix. */
  function Candidate(prefix: string, suffix: string): (r: string)
    ensures |r| == |prefix| + 1 + |suffix|
    ensures r[..|prefix|] == prefix && r[|prefix|] == '-' && r[|prefix| + 1..] == suffix
  {
    prefix + "-" + suffix
  }

  /** Draws suffixes until the candidate is not among the slugs already
      `taken` in the model's table. The result is the candidate for the first
      draw that is free: every earlier draw collided. The source loops without
      a bound; the requires says that some draw is free. */
  method SlugifyField(field: string, maxLength: int, slugify: string -> string,
                      randomString: nat -> string, taken: set<string>)
    returns (slug: string, ghost draws: nat)
    requires forall i :: |randomString(i)| == RandomLength
    requires exists k :: Candidate(SlugPrefix(field, maxLength, slugify), randomString(k)) !in taken
    ensures slug !in taken
    ensures slug == Candidate(SlugPrefix(field, maxLength, slugify), randomString(draws))
    ensures forall i :: 0 <= i < draws ==> Candidate(SlugPrefix(field, maxLength, slugify), randomString(i)) in taken
    ensures |slug| == |SlugPrefix(field, maxLength, slugify)| + SuffixWidth
  {
    ghost var free: nat :| Candidate(SlugPrefix(field, maxLength, slugify), randomString(free)) !in taken;
    var n := 0;
    slug := Candidate(slugify(PyPrefix(field, maxLength - SuffixWidth)), randomString(n));
    while slug in taken
      invariant n <= free
      invariant slug == Candidate(SlugPrefix(field, maxLength, slugify), randomString(n))
      invariant forall i :: 0 <= i < n ==> Candidate(SlugPrefix(field, maxLength, slugify), randomString(i)) in taken
      decreases free - n
    {
      n := n + 1;
      slug := Candidate(slugify(PyPrefix(field, maxLength - SuffixWidth)), randomString(n));
    }
    draws := n;
  }
}
