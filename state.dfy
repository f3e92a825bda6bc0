/** The server-wide state of src/session/state.rs: the store, the command
    registry and the index of keys that carry a deadline, plus one pass of
    the expiry reaper. */
module SharedState {
  import opened Wrappers
  import opened Values
  import opened Storage
  import opened Registry

  /** The keys one sweep at `now` removes: indexed keys whose stored value is
      an `Expire` whose deadline lies strictly before `now`. */
  function Due(m: map<string, Value>, index: set<string>, now: nat): set<string>
  {
    set k | k in index && k in m && Expired(m[k], now)
  }

  class State {
    const store: Store
    const commands: CommandHandler
    var expireKeys: set<string>

    /** `State::new`: an empty store and index, and a registry holding the
        nine core commands. */
    constructor ()
      ensures fresh(store) && fresh(commands)
      ensures store.inner == map[] && expireKeys == {}
      ensures commands.commands == Install(map[], Registered)
    {
      store := new Store();
      commands := new CommandHandler();
      expireKeys := {};
      new;
      commands.Register();
    }

    /** One pass of the reaper loop: collect the due keys, then remove each
        from the store and from the index. */
    method Sweep(now: nat)
      modifies this, store
      ensures store.inner == old(store.inner) - Due(old(store.inner), old(expireKeys), now)
      ensures expireKeys == old(expireKeys) - Due(old(store.inner), old(expireKeys), now)
    {
      ghost var due := Due(store.inner, expireKeys, now);
      var keysToRemove: seq<string> := [];
      var pending := expireKeys;
      while pending != {}
        invariant store.inner == old(store.inner) && expireKeys == old(expireKeys)
        invariant pending <= expireKeys
        invariant forall k :: k in keysToRemove ==> k in due
        invariant forall k :: k in due ==> k in keysToRemove || k in pending
        decreases pending
      {
        var key :| key in pending;
        var stored := store.Get(key);
        if stored.Some? && stored.value.Expire? && now > stored.value.deadline {
          keysToRemove := keysToRemove + [key];
        }
        pending := pending - {key};
      }

      ghost var removed: set<string> := {};
      var i := 0;
      while i < |keysToRemove|
        invariant 0 <= i <= |keysToRemove|
        invariant removed <= due
        invariant forall j :: 0 <= j < i ==> keysToRemove[j] in removed
        invariant store.inner == old(store.inner) - removed
        invariant expireKeys == old(expireKeys) - removed
      {
        var key := keysToRemove[i];
        var _ := store.Remove(key);
        expireKeys := expireKeys - {key};
        removed := removed + {key};
        i := i + 1;
      }
      assert removed == due;
    }
  }

  /** What a sweep removes and what it keeps: it removes only indexed keys
      holding an expired `Expire`; an indexed key that is absent or holds no
      `Expire` stays in the index; an `Expire` due at or after `now`, and an
      unindexed key, stay in the store; and a second sweep at the same `now`
      finds nothing left to remove. */
  lemma SweepLaws(m: map<string, Value>, index: set<string>, now: nat)
    ensures forall k :: k in Due(m, index, now) ==>
      k in index && k in m && m[k].Expire? && m[k].deadline < now
    ensures forall k :: k in index && (k !in m || !m[k].Expire?) ==> k in index - Due(m, index, now)
    ensures forall k :: k in m && m[k].Expire? && now <= m[k].deadline ==> k in m - Due(m, index, now)
    ensures forall k :: k in m && k !in index ==> k in m - Due(m, index, now)
    ensures Due(m - Due(m, index, now), index - Due(m, index, now), now) == {}
  {
  }
}
