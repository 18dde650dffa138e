/**
 What a batch of memory reads answers, over the map a shard stands for and a fixed clock: read one key after the other,
 or through the pipeline that looks every candidate up before it validates any.
 */
module BatchAnswers {
  import opened SlotTable
  import opened Options
  import ExpiryScale

  predicate Lives<V>(e: Entry<V>, nowOff: nat) { !ExpiryScale.Expired(e.expireOff, nowOff) }

  function Answer<K, V>(m: map<K, Entry<V>>, key: K, nowOff: nat): Option<V> {
    if key in m && Lives(m[key], nowOff) then Some(m[key].value) else None
  }

  function Touched<V>(e: Entry<V>, refresh: Option<nat>): Entry<V> {
    if refresh.Some? then e.(expireOff := refresh.value) else e
  }

  /** The map after a read that judged the key's deadline by `e`. */
  function Judged<K, V>(m: map<K, Entry<V>>, key: K, e: Entry<V>, nowOff: nat, refresh: Option<nat>): map<K, Entry<V>>
    requires key in m
  {
    if Lives(e, nowOff) then m[key := Touched(m[key], refresh)] else m - {key}
  }

  /** The map after a plain read of the key. */
  function After<K, V>(m: map<K, Entry<V>>, key: K, nowOff: nat, refresh: Option<nat>): map<K, Entry<V>> {
    if key in m then Judged(m, key, m[key], nowOff, refresh) else m
  }

  /** Reading the keys one after the other. */
  function Serial<K, V>(m: map<K, Entry<V>>, keys: seq<K>, nowOff: nat, refresh: Option<nat>)
    : (r: (seq<Option<V>>, map<K, Entry<V>>))
    ensures |r.0| == |keys|
  {
    if keys == [] then ([], m)
    else
      var before, key := Serial(m, keys[..|keys| - 1], nowOff, refresh), keys[|keys| - 1];
      (before.0 + [Answer(before.1, key, nowOff)], After(before.1, key, nowOff, refresh))
  }

  /** Reading the keys through the pipeline: a key whose own slot was its first candidate when the group started is
      judged by the meta word of that moment as long as it lives; any other goes through a plain read. */
  function Piped<K, V>(m0: map<K, Entry<V>>, keys: seq<K>, straight: set<K>, nowOff: nat, refresh: Option<nat>)
    : (r: (seq<Option<V>>, map<K, Entry<V>>))
    ensures |r.0| == |keys|
  {
    if keys == [] then ([], m0)
    else
      var before, key := Piped(m0, keys[..|keys| - 1], straight, nowOff, refresh), keys[|keys| - 1];
      if key in straight && key in before.1 && key in m0 then
        (before.0 + [Answer(m0, key, nowOff)], Judged(before.1, key, m0[key], nowOff, refresh))
      else
        (before.0 + [Answer(before.1, key, nowOff)], After(before.1, key, nowOff, refresh))
  }

  /** The refreshed deadline is in the future: always, unless the longest lifetime lands on the reserved offset. */
  predicate RefreshLives(refresh: Option<nat>, nowOff: nat) {
    refresh.None? || !ExpiryScale.Expired(refresh.value, nowOff)
  }

  /** Some key was a straight hit twice in the group. */
  ghost predicate StraightRepeat<K, V>(m0: map<K, Entry<V>>, keys: seq<K>, straight: set<K>, nowOff: nat) {
    exists i, j | 0 <= i < j < |keys| :: keys[i] == keys[j] && keys[i] in straight && Answer(m0, keys[i], nowOff).Some?
  }

  /** The map while reads go on: items only leave or have a living deadline pushed out. */
  ghost predicate Worn<K, V>(m0: map<K, Entry<V>>, m: map<K, Entry<V>>, nowOff: nat, refresh: Option<nat>) {
    forall k | k in m ::
      && k in m0 && m[k].value == m0[k].value
      && (m[k] == m0[k] || (Lives(m0[k], nowOff) && m[k] == Touched(m0[k], refresh)))
  }

  lemma {:induction false} PipedWears<K, V>(m0: map<K, Entry<V>>, keys: seq<K>, straight: set<K>, nowOff: nat,
                                            refresh: Option<nat>)
    ensures Worn(m0, Piped(m0, keys, straight, nowOff, refresh).1, nowOff, refresh)
  {
    if keys != [] {
      PipedWears(m0, keys[..|keys| - 1], straight, nowOff, refresh);
    }
  }

  /** With a refreshed deadline in the future the pipeline answers what the map held at the start, and leaves what plain
      reads leave. */
  lemma {:induction false} PipedIsSerial<K, V>(m0: map<K, Entry<V>>, keys: seq<K>, straight: set<K>, nowOff: nat,
                                               refresh: Option<nat>)
    requires RefreshLives(refresh, nowOff)
    ensures Piped(m0, keys, straight, nowOff, refresh) == Serial(m0, keys, nowOff, refresh)
  {
    if keys != [] {
      var rest, key := keys[..|keys| - 1], keys[|keys| - 1];
      PipedIsSerial(m0, rest, straight, nowOff, refresh);
      PipedWears(m0, rest, straight, nowOff, refresh);
    }
  }

  /** Plain reads answer what the map held at the start. */
  lemma {:induction false} SerialAnswers<K, V>(m0: map<K, Entry<V>>, keys: seq<K>, nowOff: nat, refresh: Option<nat>,
                                               key: K)
    requires RefreshLives(refresh, nowOff)
    ensures Answer(Serial(m0, keys, nowOff, refresh).1, key, nowOff) == Answer(m0, key, nowOff)
  {
    if keys != [] {
      SerialAnswers(m0, keys[..|keys| - 1], nowOff, refresh, key);
      SerialAnswers(m0, keys[..|keys| - 1], nowOff, refresh, keys[|keys| - 1]);
    }
  }

  lemma {:induction false} Untouched<K, V>(m0: map<K, Entry<V>>, keys: seq<K>, nowOff: nat, refresh: Option<nat>,
                                           key: K)
    requires key !in keys
    ensures var m := Serial(m0, keys, nowOff, refresh).1;
            (key in m <==> key in m0) && (key in m ==> m[key] == m0[key])
  {
    if keys != [] {
      Untouched(m0, keys[..|keys| - 1], nowOff, refresh, key);
    }
  }

  lemma {:induction false} ExpiredLeaves<K, V>(m0: map<K, Entry<V>>, keys: seq<K>, nowOff: nat, refresh: Option<nat>,
                                               key: K)
    requires key in keys && Answer(m0, key, nowOff).None?
    ensures key !in Serial(m0, keys, nowOff, refresh).1
  {
    var rest, last := keys[..|keys| - 1], keys[|keys| - 1];
    if key in rest {
      ExpiredLeaves(m0, rest, nowOff, refresh, key);
    } else {
      assert last == key;
      Untouched(m0, rest, nowOff, refresh, key);
    }
  }

  /** With a refreshed deadline already past, a key that was read once is gone for plain reads. */
  lemma {:induction false} ReadOnceIsGone<K, V>(m0: map<K, Entry<V>>, keys: seq<K>, nowOff: nat, refresh: Option<nat>,
                                                key: K)
    requires !RefreshLives(refresh, nowOff) && key in keys
    ensures Answer(Serial(m0, keys, nowOff, refresh).1, key, nowOff).None?
  {
    var rest, last := keys[..|keys| - 1], keys[|keys| - 1];
    if key in rest {
      ReadOnceIsGone(m0, rest, nowOff, refresh, key);
    }
  }

  lemma {:induction false} StraightHitStays<K, V>(m0: map<K, Entry<V>>, keys: seq<K>, straight: set<K>, nowOff: nat,
                                                  refresh: Option<nat>,
                                                   key: K)
    requires key in straight && Answer(m0, key, nowOff).Some?
    ensures key in Piped(m0, keys, straight, nowOff, refresh).1
  {
    if keys != [] {
      StraightHitStays(m0, keys[..|keys| - 1], straight, nowOff, refresh, key);
    }
  }

  lemma {:induction false} AnswerAt<K, V>(m0: map<K, Entry<V>>, keys: seq<K>, straight: set<K>, nowOff: nat,
                                          refresh: Option<nat>, j: nat)
    requires j < |keys|
    ensures Serial(m0, keys, nowOff, refresh).0[j] == Answer(Serial(m0, keys[..j], nowOff, refresh).1, keys[j], nowOff)
    ensures keys[j] in straight && keys[j] in m0 && keys[j] in Piped(m0, keys[..j], straight, nowOff, refresh).1 ==>
              Piped(m0, keys, straight, nowOff, refresh).0[j] == Answer(m0, keys[j], nowOff)
  {
    var n := |keys| - 1;
    if j < n {
      AnswerAt(m0, keys[..n], straight, nowOff, refresh, j);
      assert keys[..n][..j] == keys[..j];
    }
  }

  lemma {:induction false} NoRepeatIsSerial<K, V>(m0: map<K, Entry<V>>, keys: seq<K>, straight: set<K>, nowOff: nat,
                                                  refresh: Option<nat>)
    requires !StraightRepeat(m0, keys, straight, nowOff)
    ensures Piped(m0, keys, straight, nowOff, refresh) == Serial(m0, keys, nowOff, refresh)
  {
    if keys != [] {
      var n := |keys| - 1;
      var rest, key := keys[..n], keys[n];
      assert !StraightRepeat(m0, rest, straight, nowOff) by {
        assert forall i | 0 <= i < n :: rest[i] == keys[i];
      }
      NoRepeatIsSerial(m0, rest, straight, nowOff, refresh);
      if key in straight && key in rest {
        var i :| 0 <= i < n && rest[i] == key;
        assert keys[i] == keys[n];
        ExpiredLeaves(m0, rest, nowOff, refresh, key);
      } else if key in straight {
        Untouched(m0, rest, nowOff, refresh, key);
      }
    }
  }

  /** The pipeline answers exactly what plain reads in turn answer, if and only if the refreshed deadline is in the
      future or no key is a straight hit twice in the group. */
  lemma SameAnswersExactly<K, V>(m0: map<K, Entry<V>>, keys: seq<K>, straight: set<K>, nowOff: nat,
                                 refresh: Option<nat>)
    ensures Piped(m0, keys, straight, nowOff, refresh).0 == Serial(m0, keys, nowOff, refresh).0 <==>
              RefreshLives(refresh, nowOff) || !StraightRepeat(m0, keys, straight, nowOff)
  {
    if RefreshLives(refresh, nowOff) {
      PipedIsSerial(m0, keys, straight, nowOff, refresh);
    } else if !StraightRepeat(m0, keys, straight, nowOff) {
      NoRepeatIsSerial(m0, keys, straight, nowOff, refresh);
    } else {
      var i, j :| 0 <= i < j < |keys| && keys[i] == keys[j] && keys[i] in straight && Answer(m0, keys[i], nowOff).Some?;
      assert keys[..j][i] == keys[j];
      ReadOnceIsGone(m0, keys[..j], nowOff, refresh, keys[j]);
      StraightHitStays(m0, keys[..j], straight, nowOff, refresh, keys[j]);
      AnswerAt(m0, keys, straight, nowOff, refresh, j);
    }
  }

  /** The found keys with their values, in the order asked. */
  function Hits<K, V>(keys: seq<K>, answers: seq<Option<V>>): seq<(K, V)>
    requires |keys| == |answers|
  {
    if keys == [] then []
    else
      var n := |keys| - 1;
      Hits(keys[..n], answers[..n]) + (if answers[n].Some? then [(keys[n], answers[n].value)] else [])
  }

  /** The keys not found, in the order asked. */
  function Missing<K, V>(keys: seq<K>, answers: seq<Option<V>>): seq<K>
    requires |keys| == |answers|
  {
    if keys == [] then []
    else
      var n := |keys| - 1;
      Missing(keys[..n], answers[..n]) + (if answers[n].Some? then [] else [keys[n]])
  }

  lemma SortedStep<K, V>(keys: seq<K>, answers: seq<Option<V>>, key: K, answer: Option<V>)
    requires |keys| == |answers|
    ensures Hits(keys + [key], answers + [answer])
         == if answer.Some? then Hits(keys, answers) + [(key, answer.value)] else Hits(keys, answers)
    ensures Missing(keys + [key], answers + [answer])
         == if answer.Some? then Missing(keys, answers) else Missing(keys, answers) + [key]
  {
    assert (keys + [key])[..|keys|] == keys && (answers + [answer])[..|keys|] == answers;
  }

  lemma SortedNone<K, V>()
    ensures Hits<K, V>([], []) == [] && Missing<K, V>([], []) == []
  {
  }

  lemma {:induction false} SerialStep<K, V>(m: map<K, Entry<V>>, keys: seq<K>, key: K, nowOff: nat,
                                            refresh: Option<nat>)
    ensures var before := Serial(m, keys, nowOff, refresh);
            Serial(m, keys + [key], nowOff, refresh)
            == (before.0 + [Answer(before.1, key, nowOff)], After(before.1, key, nowOff, refresh))
    ensures Serial(m, [], nowOff, refresh) == ([], m)
  {
    assert (keys + [key])[..|keys|] == keys;
  }

  lemma SerialNone<K, V>(m: map<K, Entry<V>>, nowOff: nat, refresh: Option<nat>)
    ensures Serial(m, [], nowOff, refresh) == ([], m)
  {
  }

  lemma Joined<T>(a: seq<T>, b: seq<T>, last: T)
    ensures a + [] == a && (a + b) + [last] == a + (b + [last])
  {
  }

  /** Reading two lists in turn is reading them joined. */
  lemma {:induction false} SerialConcat<K, V>(m: map<K, Entry<V>>, a: seq<K>, b: seq<K>, nowOff: nat,
                                              refresh: Option<nat>)
    ensures var first := Serial(m, a, nowOff, refresh);
            var second := Serial(first.1, b, nowOff, refresh);
            Serial(m, a + b, nowOff, refresh) == (first.0 + second.0, second.1)
  {
    hide *;
    var first := Serial(m, a, nowOff, refresh);
    if b == [] {
      SerialNone(first.1, nowOff, refresh);
      Joined(first.0, [], None);
      assert a + b == a;
    } else {
      var rest, key := b[..|b| - 1], b[|b| - 1];
      var second := Serial(first.1, rest, nowOff, refresh);
      SerialConcat(m, a, rest, nowOff, refresh);
      SerialStep(m, a + rest, key, nowOff, refresh);
      SerialStep(first.1, rest, key, nowOff, refresh);
      Joined(first.0, second.0, Answer(second.1, key, nowOff));
      assert b == rest + [key] && a + b == (a + rest) + [key];
    }
  }
}
