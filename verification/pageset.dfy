/**
 The page store as the set of (url, user) pairs it holds: the reference
 meaning of each store operation, free of rows and of SQL.
 */
module PageSet {
  import opened Storage

  type Store = set<Page>

  /** Saving adds the pair; a pair already there stays once. */
  function Save(s: Store, p: Page): Store {
    s + {p}
  }

  /** Removing takes the pair out when present, and reports it missing otherwise. */
  function Remove(s: Store, p: Page): (Store, Outcome<()>) {
    if p in s then (s - {p}, Ok(())) else (s, Err(ErrURLNotFound))
  }

  /** The pages one user has saved. */
  function PagesOf(s: Store, userName: string): set<Page> {
    set q | q in s && q.userName == userName
  }

  /** The answers a random pick for `userName` may give. */
  predicate PickAllowed(s: Store, userName: string, answer: Outcome<Page>) {
    if PagesOf(s, userName) == {} then answer == Err(ErrNoSavedPages)
    else answer.Ok? && answer.value in PagesOf(s, userName)
  }
}
