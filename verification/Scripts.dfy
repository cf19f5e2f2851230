/** Calls made in a fixed order for as long as each is accepted. */
module Scripts {
  /**
   `log` is how far a script of calls gets: every call but the last was accepted, and the script is
   not cut short unless the last call was refused. `accepted` judges a call from all calls so far,
   so what is called may have state.
   */
  ghost predicate Plays<C(!new)>(accepted: seq<C> -> bool, script: seq<C>, log: seq<C>) {
    && log <= script
    && (forall n | 1 <= n < |log| :: accepted(log[..n]))
    && (log == script || (log != [] && !accepted(log)))
  }

  /** Every call of the script was made and accepted. */
  ghost predicate PlaysOut<C(!new)>(accepted: seq<C> -> bool, script: seq<C>, log: seq<C>) {
    Plays(accepted, script, log) && log == script && (log != [] ==> accepted(log))
  }

  /** A script and the answers to it determine the calls made. */
  lemma PlaysUnique<C(!new)>(accepted: seq<C> -> bool, script: seq<C>, log: seq<C>, log': seq<C>)
    requires Plays(accepted, script, log) && Plays(accepted, script, log')
    ensures log == log'
  {
    assert |log| <= |log'| ==> log'[..|log|] == log;
    assert |log'| <= |log| ==> log[..|log'|] == log';
  }

  /** All calls so far were accepted, and the script goes on with `rest`. */
  ghost predicate Playing<C(!new)>(accepted: seq<C> -> bool, script: seq<C>, log: seq<C>, rest: seq<C>) {
    script == log + rest && forall n | 1 <= n <= |log| :: accepted(log[..n])
  }

  lemma StartPlaying<C(!new)>(accepted: seq<C> -> bool, script: seq<C>)
    ensures Playing(accepted, script, [], script)
  {
  }

  lemma PlayOne<C(!new)>(accepted: seq<C> -> bool, script: seq<C>, log: seq<C>, call: C, rest: seq<C>)
    requires Playing(accepted, script, log, [call] + rest)
    ensures accepted(log + [call]) ==> Playing(accepted, script, log + [call], rest)
    ensures !accepted(log + [call]) ==> Plays(accepted, script, log + [call])
  {
    assert log + ([call] + rest) == (log + [call]) + rest;
    forall n | 1 <= n <= |log| ensures (log + [call])[..n] == log[..n] {}
    assert (log + [call])[..|log| + 1] == log + [call];
  }

  lemma PlayedAll<C(!new)>(accepted: seq<C> -> bool, script: seq<C>, log: seq<C>)
    requires Playing(accepted, script, log, [])
    ensures PlaysOut(accepted, script, log) && log == script
  {
    assert log + [] == log && log[..|log|] == log;
  }
}
