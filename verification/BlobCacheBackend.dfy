/** The backends as objects: a linked chain updated in place. */
module BlobCacheBackend {
  import opened BlobCache
  import opened Wrappers
  import Base64

  /** A backend with its own store and the backend it delegates to. */
  class Backend {
    var level: Level
    var delegate: Backend?
    ghost var Repr: set<Backend>

    ghost predicate Valid()
      reads this, Repr
      decreases Repr
    {
      && this in Repr
      && (delegate != null ==>
            && delegate in Repr && delegate.Repr <= Repr
            && this !in delegate.Repr
            && delegate.Valid())
    }

    /** The levels from this backend down. */
    ghost function Chain(): (ls: seq<Level>)
      requires Valid()
      reads this, Repr
      ensures |ls| > 0 && ls[0] == level
      decreases Repr
    {
      [level] + if delegate == null then [] else delegate.Chain()
    }

    constructor (l: Level)
      ensures Valid() && fresh(Repr) && Chain() == [l]
    {
      level := l;
      delegate := null;
      Repr := {this};
    }

    lemma ChainStep()
      requires Valid()
      ensures Chain() == [level] + if delegate == null then [] else delegate.Chain()
    {
    }

    /** The backend at the end of the chain gets its delegate. */
    method Attach(d: Backend)
      requires Valid() && d.Valid() && Repr !! d.Repr && delegate == null
      modifies `delegate, `Repr
      ensures Valid() && Repr == old(Repr) + old(d.Repr)
      ensures Chain() == old(Chain()) + old(d.Chain())
    {
      delegate := d;
      Repr := Repr + d.Repr;
      assert d.Valid() && d.Chain() == old(d.Chain());
    }

    method AppendDelegate(d: Backend)
      requires Valid() && d.Valid() && Repr !! d.Repr
      modifies Repr`delegate, Repr`Repr
      ensures Valid() && Repr == old(Repr) + old(d.Repr)
      ensures Chain() == old(Chain()) + old(d.Chain())
      decreases Repr
    {
      hide Chain;
      if delegate == null {
        Attach(d);
      } else {
        ghost var mine, theirs, lower := Repr, d.Repr, delegate.Repr;
        ghost var below, added := delegate.Chain(), d.Chain();
        ChainStep();
        delegate.AppendDelegate(d);
        assert this !in delegate.Repr && delegate.Repr == lower + theirs;
        ghost var chain := delegate.Chain();
        Repr := mine + theirs;
        assert delegate.Valid() && delegate.Chain() == chain;
        ChainStep();
      }
    }

    method ContainsSync(k: Key) returns (yes: bool)
      requires Valid()
      ensures yes == BlobCache.ContainsSync(Chain(), k)
      decreases Repr
    {
      yes := ContainsHere(level, k);
      if !yes && delegate != null {
        yes := delegate.ContainsSync(k);
      }
    }

    method InsertSyncImpl(k: Key, v: Blob, h: Hash)
      requires Valid()
      modifies `level
      ensures Valid()
      ensures level == InsertHere(old(level), k, v, BlobCache.ContainsSync(old(Chain()), k), h)
    {
      match level {
        case Memory(cache) => level := Memory(cache[k := v]);
        case Files(files, readOnly) =>
          var already := ContainsSync(k);
          if !already && !readOnly {
            level := Files(files[Base64.UrlBody(k) := v + h(v)], readOnly);
          }
      }
    }

    method InsertSync(k: Key, v: Blob, h: Hash)
      requires Valid()
      modifies Repr`level
      ensures Valid()
      ensures Chain() == BlobCache.InsertSync(old(Chain()), k, v, h)
      decreases Repr
    {
      InsertSyncImpl(k, v, h);
      if delegate != null {
        delegate.InsertSync(k, v, h);
      }
    }

    method FindSync(k: Key, h: Hash) returns (a: Answer)
      requires Valid()
      modifies Repr`level
      ensures Valid()
      ensures (a, Chain()) == BlobCache.FindSync(old(Chain()), k, h)
      ensures IsAnswer(old(Chain()), k, h, a)
      decreases Repr
    {
      FindSyncIff(Chain(), k, h);
      hide IsAnswer, FindHere;
      a := FindHere(level, k, h);
      if a != Found(None) || delegate == null {
        return;
      }
      a := delegate.FindSync(k, h);
      if a.Found? && a.blob.Some? {
        InsertSync(k, a.blob.value, h);
      }
    }

    // The asynchronous calls, run alone and waited for; each `*Impl` is the wrapped synchronous walk. What they do is
    // given by the functions that visit the delegate again; those are proved equal to the synchronous ones.

    method Insert(k: Key, v: Blob, h: Hash)
      requires Valid()
      modifies Repr`level
      ensures Valid()
      ensures Chain() == AsyncInsert(old(Chain()), k, v, h)
      decreases Repr
    {
      InsertSync(k, v, h);
      if delegate != null {
        assert Chain()[1..] == delegate.Chain();
        delegate.Insert(k, v, h);
      }
    }

    method Contains(k: Key) returns (yes: bool)
      requires Valid()
      ensures yes == AsyncContains(Chain(), k)
      decreases Repr
    {
      yes := ContainsSync(k);
      if !yes && delegate != null {
        yes := delegate.Contains(k);
      }
    }

    method Find(k: Key, h: Hash) returns (a: Answer)
      requires Valid()
      modifies Repr`level
      ensures Valid()
      ensures (a, Chain()) == AsyncFind(old(Chain()), k, h)
      ensures IsAnswer(old(Chain()), k, h, a)
      decreases Repr
    {
      FindSyncIff(Chain(), k, h);
      AsyncFindIsSync(Chain(), k, h);
      hide IsAnswer;
      a := FindSync(k, h);
      if a != Found(None) || delegate == null {
        return;
      }
      assert Chain()[1..] == delegate.Chain();
      a := delegate.Find(k, h);
      if a.Found? && a.blob.Some? {
        Insert(k, a.blob.value, h);
      }
    }
  }
}
