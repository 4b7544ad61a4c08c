/** Title uniqueness: `makeTitleUnique` probes the book table with
    `Book.objects.get(title=name)` for `requested`, then
    `requested - 1`, `requested - 2`, ... until a probe raises. */
module Titles {
  import opened Text

  /** The book table as the probes see it: how many books carry each title
      (a title that is not a key has no book). */
  type TitleStore = map<string, nat>

  function Count(books: TitleStore, title: string): nat {
    if title in books then books[title] else 0
  }

  /** `Book.objects.get(title=title)` returns a book only when exactly one row
      matches; with none it raises `DoesNotExist`, with several
      `MultipleObjectsReturned`, and the bare `except` stops the loop on both. */
  predicate GetSucceeds(books: TitleStore, title: string) {
    Count(books, title) == 1
  }

  /** `u'%s - %d' % (requested, n)`. */
  function Numbered(requested: string, n: nat): string {
    requested + " - " + Decimal(n)
  }

  /** Candidates for different counters are different titles, and none of
      them is the requested title itself. */
  lemma NumberedDistinct(requested: string, a: nat, b: nat)
    ensures Numbered(requested, a) != requested
    ensures Numbered(requested, a) == Numbered(requested, b) ==> a == b
  {
    var pre := requested + " - ";
    assert |Numbered(requested, a)| > |requested|;
    if Numbered(requested, a) == Numbered(requested, b) {
      assert Decimal(a) == Numbered(requested, a)[|pre|..];
      assert Decimal(b) == Numbered(requested, b)[|pre|..];
      DecimalInjective(a, b);
    }
  }

  /** `name` is `requested - n` for the lowest `n >= 1` whose probe does not
      find exactly one book: every `requested - k` with `1 <= k < n` does. */
  ghost predicate LowestFreeSuffix(books: TitleStore, requested: string, name: string) {
    exists n: nat :: 1 <= n && name == Numbered(requested, n)
      && !GetSucceeds(books, name)
      && forall k: nat :: 1 <= k < n ==> GetSucceeds(books, Numbered(requested, k))
  }

  /** `makeTitleUnique(requestedTitle)`.  The loop ends on every finite table:
      each probe that succeeds uses up a title of the table that no earlier
      probe saw. */
  method MakeTitleUnique(books: TitleStore, requested: string) returns (name: string)
    ensures !GetSucceeds(books, requested) ==> name == requested
    ensures GetSucceeds(books, requested) ==> LowestFreeSuffix(books, requested, name)
    ensures !GetSucceeds(books, name)
    ensures (forall t :: t in books ==> books[t] <= 1) ==> Count(books, name) == 0
  {
    var n: nat := 0;
    name := requested;
    ghost var seen: set<string> := {};
    while true
      invariant n == 0 ==> name == requested && seen == {}
      invariant n >= 1 ==> name == Numbered(requested, n) && GetSucceeds(books, requested)
      invariant forall k: nat :: 1 <= k < n ==> GetSucceeds(books, Numbered(requested, k))
      invariant n >= 1 ==> seen == {requested} + set k: nat | 1 <= k < n :: Numbered(requested, k)
      invariant seen <= books.Keys
      invariant name !in seen
      decreases books.Keys - seen
    {
      if !GetSucceeds(books, name) {
        break;
      }
      seen := seen + {name};
      n := n + 1;
      name := Numbered(requested, n);
      forall k: nat | 1 <= k < n
        ensures Numbered(requested, k) != name
      {
        NumberedDistinct(requested, k, n);
      }
      NumberedDistinct(requested, n, n);
      assert seen == {requested} + set k: nat | 1 <= k < n :: Numbered(requested, k);
    }
  }
}
