/**
  * What happens to the clipboards of a client, as a history; the flags and the saved
  * data of the client (module Clients) are proved to be summaries of it.
  */
module ClipboardHistory {
  import opened Options

  const CLIPBOARD_END := 2

  /** `Taken`: the server set or grabbed the clipboard; `Grabbed`: this screen did; `limit`
    * is the size limit, in octets, when the data was sent. */
  datatype Entry =
    | Connected
    | Taken(id: nat)
    | Grabbed(id: nat)
    | Sent(id: nat, data: string, limit: nat)

  /** What the server has been sent and need not be sent again. */
  function Known(log: seq<Entry>, id: nat): Option<string> {
    if log == [] then None else
      var last := log[|log| - 1];
      match last
      case Connected => None
      case Sent(i, data, _) => if i == id then Some(data) else Known(log[..|log| - 1], id)
      case _ => if last.id == id then None else Known(log[..|log| - 1], id)
  }

  /** Is the last change of ownership since connecting a grab by this screen? */
  predicate Owns(log: seq<Entry>, id: nat) {
    log != [] &&
    var last := log[|log| - 1];
    match last
    case Connected => false
    case Sent(_, _, _) => Owns(log[..|log| - 1], id)
    case _ => if last.id == id then last.Grabbed? else Owns(log[..|log| - 1], id)
  }

  predicate Clears(e: Entry, id: nat) {
    e.Connected? || (e.Taken? && e.id == id) || (e.Grabbed? && e.id == id)
  }

  /** Only owned clipboards are sent, only when the server does not know the data, and only
    * below the limit. */
  ghost predicate Proper(log: seq<Entry>) {
    forall i :: 0 <= i < |log| && log[i].Sent? ==>
      && Known(log[..i], log[i].id) != Some(log[i].data)
      && Owns(log[..i], log[i].id)
      && |log[i].data| < log[i].limit
  }

  lemma ProperStep(log: seq<Entry>, e: Entry)
    requires Proper(log)
    requires e.Sent? ==> Known(log, e.id) != Some(e.data) && Owns(log, e.id) && |e.data| < e.limit
    ensures Proper(log + [e])
  {
    forall i | 0 <= i < |log + [e]| && (log + [e])[i].Sent?
      ensures Known((log + [e])[..i], (log + [e])[i].id) != Some((log + [e])[i].data)
      ensures Owns((log + [e])[..i], (log + [e])[i].id) && |(log + [e])[i].data| < (log + [e])[i].limit
    {
      assert (log + [e])[..i] == if i == |log| then log else log[..i];
    }
  }

  /** What clears a clipboard: a new connection, or the server's or this screen's grab of it. */
  lemma ClearsOutcomes(id: nat, other: nat, data: string, limit: nat)
    ensures Clears(Connected, id) && Clears(Taken(id), id) && Clears(Grabbed(id), id)
    ensures !Clears(Sent(id, data, limit), id)
    ensures other != id ==> !Clears(Taken(other), id) && !Clears(Grabbed(other), id)
  {
  }

  lemma Append(log: seq<Entry>, e: Entry, id: nat)
    ensures Known(log + [e], id) ==
      (if Clears(e, id) then None else if e.Sent? && e.id == id then Some(e.data) else Known(log, id))
    ensures Owns(log + [e], id) ==
      (if Clears(e, id) then e.Grabbed? else Owns(log, id))
  {
    assert (log + [e])[..|log|] == log;
  }

  /** Data once sent stays known as long as nothing clears it and nothing else is sent. */
  lemma {:induction false} KnownSince(log: seq<Entry>, i: nat, j: nat)
    requires i < j <= |log| && log[i].Sent?
    requires forall k :: i < k < j ==> !Clears(log[k], log[i].id)
    requires forall k :: i < k < j && log[k].Sent? && log[k].id == log[i].id ==> log[k].data == log[i].data
    ensures Known(log[..j], log[i].id) == Some(log[i].data)
    decreases j
  {
    assert log[..j][..j - 1] == log[..j - 1];
    if j > i + 1 {
      KnownSince(log, i, j - 1);
    }
  }

  /** Over a whole history, the same data is never sent twice in succession for a clipboard
    * without something between that cleared it: a new connection, a grab or new contents
    * from the server, or a grab here. */
  lemma ResentOnlyAfterClear(log: seq<Entry>, i: nat, j: nat)
    requires Proper(log) && i < j < |log|
    requires log[i].Sent? && log[j].Sent? && log[i].id == log[j].id && log[i].data == log[j].data
    requires forall k :: i < k < j && log[k].Sent? ==> log[k].id != log[i].id
    ensures exists k :: i < k < j && Clears(log[k], log[i].id)
  {
    if forall k :: i < k < j ==> !Clears(log[k], log[i].id) {
      KnownSince(log, i, j);
    }
  }

  /** What a clipboard's flags say about any history: data is only sent between a grab here
    * and the next change of ownership. */
  lemma {:induction false} OwnedSinceGrab(log: seq<Entry>, id: nat)
    requires Owns(log, id)
    ensures exists g :: 0 <= g < |log| && log[g] == Grabbed(id) && forall k :: g < k < |log| ==> !Clears(log[k], id)
  {
    var n := |log| - 1;
    if Clears(log[n], id) {
      assert log[n] == Grabbed(id);
    } else {
      OwnedSinceGrab(log[..n], id);
      var g :| 0 <= g < n && log[..n][g] == Grabbed(id) && forall k :: g < k < n ==> !Clears(log[..n][k], id);
      assert log[g] == Grabbed(id);
      forall k | g < k < |log| ensures !Clears(log[k], id) {
        if k < n {
          assert log[k] == log[..n][k];
        }
      }
    }
  }

  /** Everything sent was grabbed here since connecting and not taken since. */
  lemma SentOnlyWhileOwned(log: seq<Entry>, i: nat)
    requires Proper(log) && i < |log| && log[i].Sent?
    ensures exists g ::
      0 <= g < i && log[g] == Grabbed(log[i].id) && forall k :: g < k < i ==> !Clears(log[k], log[i].id)
    ensures |log[i].data| < log[i].limit
  {
    var id := log[i].id;
    OwnedSinceGrab(log[..i], id);
    var g :| 0 <= g < i && log[..i][g] == Grabbed(id) && forall k :: g < k < i ==> !Clears(log[..i][k], id);
    assert log[g] == Grabbed(id);
    forall k | g < k < i ensures !Clears(log[k], id) {
      assert log[k] == log[..i][k];
    }
  }

  // --------------------------------------------------------------------- options

  const OPTION_CLIPBOARD_SHARING: nat := 0x434C5053       // "CLPS"
  const OPTION_CLIPBOARD_SHARING_SIZE: nat := 0x434C535A  // "CLSZ"

  predicate IsClipboardOption(x: nat) {
    x == OPTION_CLIPBOARD_SHARING || x == OPTION_CLIPBOARD_SHARING_SIZE
  }

  datatype Sharing = Sharing(enabled: bool, size: nat)

  /** The options are pairs of key and value; what a list of pairs should set. */
  function Applied(pairs: seq<(nat, nat)>, s: Sharing): Sharing {
    if pairs == [] then s
    else
      var (key, value) := pairs[0];
      Applied(pairs[1..],
              if key == OPTION_CLIPBOARD_SHARING then s.(enabled := value != 0)
              else if key == OPTION_CLIPBOARD_SHARING_SIZE then s.(size := value)
              else s)
  }

  function Flatten(pairs: seq<(nat, nat)>): seq<nat> {
    if pairs == [] then [] else [pairs[0].0, pairs[0].1] + Flatten(pairs[1..])
  }

  /** The scan of `setOptions` from the rest of the flat list: None is the step past the end
    * that follows when a clipboard option comes last. */
  function Scanned(options: seq<nat>, s: Sharing): Option<Sharing> {
    if options == [] then Some(s)
    else if !IsClipboardOption(options[0]) then Scanned(options[1..], s)
    else if |options| == 1 then None
    else if options[0] == OPTION_CLIPBOARD_SHARING then Scanned(options[2..], s.(enabled := options[1] != 0))
    else Scanned(options[2..], s.(size := options[1]))
  }

  /** What a clipboard option does and what is skipped: "CLPS" with a value turns sharing on or off,
    * "CLSZ" sets the size, and any other word is passed over by itself. */
  lemma ScanOutcomes(x: nat, rest: seq<nat>, s: Sharing)
    ensures Scanned([0x434C5053, x] + rest, s) == Scanned(rest, Sharing(x != 0, s.size))
    ensures Scanned([0x434C535A, x] + rest, s) == Scanned(rest, Sharing(s.enabled, x))
    ensures x != 0x434C5053 && x != 0x434C535A ==> Scanned([x] + rest, s) == Scanned(rest, s)
    ensures Scanned([], s) == Some(s) && Scanned([0x434C5053], s) == None && Scanned([0x434C535A], s) == None
  {
    assert ([0x434C5053, x] + rest)[2..] == rest && ([0x434C535A, x] + rest)[2..] == rest;
    assert ([x] + rest)[1..] == rest;
  }

  // --------------------------------------------------------- where the scan ends

  /** How many words at the end of the list are clipboard options. */
  function TrailingRun(options: seq<nat>): (n: nat)
    ensures n <= |options|
    ensures forall i :: |options| - n <= i < |options| ==> IsClipboardOption(options[i])
    ensures n < |options| ==> !IsClipboardOption(options[|options| - n - 1])
  {
    if options == [] || !IsClipboardOption(options[|options| - 1]) then 0
    else 1 + TrailingRun(options[..|options| - 1])
  }

  lemma {:induction false} RunIs(options: seq<nat>, n: nat)
    requires n <= |options| && forall i :: |options| - n <= i < |options| ==> IsClipboardOption(options[i])
    requires n < |options| ==> !IsClipboardOption(options[|options| - n - 1])
    ensures TrailingRun(options) == n
  {
    if n > 0 {
      RunIs(options[..|options| - 1], n - 1);
    }
  }

  lemma RunOfRest(options: seq<nat>, k: nat)
    requires k <= |options|
    ensures TrailingRun(options[k..]) ==
      if TrailingRun(options) <= |options| - k then TrailingRun(options) else |options| - k
  {
    var n := TrailingRun(options);
    RunIs(options[k..], if n <= |options| - k then n else |options| - k);
  }

  /** For any list, the scan steps past the end if and only if an odd number of clipboard options
    * stands there. */
  lemma {:induction false} ScanPassesEndIff(options: seq<nat>, s: Sharing)
    ensures Scanned(options, s).None? <==> TrailingRun(options) % 2 == 1
    decreases |options|
  {
    hide TrailingRun;
    RunIs([], 0);
    if options != [] {
      RunOfRest(options, 1);
      if !IsClipboardOption(options[0]) {
        ScanPassesEndIff(options[1..], s);
        RunShort(options, 0);
      } else if |options| == 1 {
        RunIs(options, 1);
      } else {
        RunOfRest(options, 2);
        ScanPassesEndIff(options[2..],
                         if options[0] == OPTION_CLIPBOARD_SHARING then s.(enabled := options[1] != 0)
                         else s.(size := options[1]));
        RunAtFront(options);
      }
    }
  }

  lemma RunShort(options: seq<nat>, i: nat)
    requires i < |options| && !IsClipboardOption(options[i])
    ensures TrailingRun(options) <= |options| - i - 1
  {
  }

  lemma RunAtFront(options: seq<nat>)
    requires |options| >= 2 && IsClipboardOption(options[0])
    ensures TrailingRun(options) != |options| - 1
  {
  }

  /** A lone key already does. */
  lemma LoneKeyPassesEnd(s: Sharing)
    ensures Scanned([OPTION_CLIPBOARD_SHARING], s) == None
  {
  }

  // ------------------------------------------------------- reading a list of pairs

  /** Does the scan, from position `at`, take a word at an odd position, where the values stand,
    * for a clipboard key? */
  predicate TakesValueForKey(options: seq<nat>, at: nat)
    decreases |options| - at
  {
    at < |options| &&
    if !IsClipboardOption(options[at]) then TakesValueForKey(options, at + 1)
    else at % 2 == 1 || TakesValueForKey(options, at + 2)
  }

  /** Some other option has the code of a clipboard option for its value. */
  predicate Collides(pairs: seq<(nat, nat)>) {
    exists i :: 0 <= i < |pairs| && !IsClipboardOption(pairs[i].0) && IsClipboardOption(pairs[i].1)
  }

  lemma {:induction false} FlattenAt(pairs: seq<(nat, nat)>, i: nat)
    requires i < |pairs|
    ensures |Flatten(pairs)| == 2 * |pairs|
    ensures Flatten(pairs)[2 * i] == pairs[i].0 && Flatten(pairs)[2 * i + 1] == pairs[i].1
  {
    if |pairs| > 1 {
      FlattenAt(pairs[1..], if i > 0 then i - 1 else 0);
    }
  }

  lemma {:induction false} TakesFrom(pairs: seq<(nat, nat)>, i: nat)
    requires i <= |pairs| && |Flatten(pairs)| == 2 * |pairs|
    ensures TakesValueForKey(Flatten(pairs), 2 * i) <==> Collides(pairs[i..])
    decreases |pairs| - i
  {
    if i < |pairs| {
      FlattenAt(pairs, i);
      TakesFrom(pairs, i + 1);
      CollidesStep(pairs, i);
      TwoWords(Flatten(pairs), i);
    }
  }

  lemma TwoWords(options: seq<nat>, i: nat)
    requires 2 * i + 1 < |options|
    ensures TakesValueForKey(options, 2 * i) <==>
      || (!IsClipboardOption(options[2 * i]) && IsClipboardOption(options[2 * i + 1]))
      || TakesValueForKey(options, 2 * (i + 1))
  {
    assert (2 * i + 1) % 2 == 1;
  }

  lemma CollidesStep(pairs: seq<(nat, nat)>, i: nat)
    requires i < |pairs|
    ensures Collides(pairs[i..]) <==>
      (!IsClipboardOption(pairs[i].0) && IsClipboardOption(pairs[i].1)) || Collides(pairs[i + 1..])
  {
    var here, rest := pairs[i..], pairs[i + 1..];
    assert here[0] == pairs[i] && forall j :: 0 <= j < |rest| ==> rest[j] == here[j + 1];
    if Collides(here) {
      var j :| 0 <= j < |here| && !IsClipboardOption(here[j].0) && IsClipboardOption(here[j].1);
      if j > 0 {
        assert rest[j - 1] == here[j];
      }
    }
  }

  /** Read as pairs, the list has a value taken for a key if and only if some other option has
    * the code of a clipboard option for its value; if none has, the scan sets what it should. */
  lemma ValueTakenForKeyIff(pairs: seq<(nat, nat)>, s: Sharing)
    ensures TakesValueForKey(Flatten(pairs), 0) <==> Collides(pairs)
    ensures !Collides(pairs) ==> Scanned(Flatten(pairs), s) == Some(Applied(pairs, s))
  {
    if pairs != [] {
      FlattenAt(pairs, 0);
    }
    TakesFrom(pairs, 0);
    assert pairs[0..] == pairs;
    if !Collides(pairs) {
      ScanReadsPairs(pairs, s);
    }
  }

  lemma {:induction false} ScanReadsPairs(pairs: seq<(nat, nat)>, s: Sharing)
    requires !Collides(pairs)
    ensures Scanned(Flatten(pairs), s) == Some(Applied(pairs, s))
  {
    if pairs != [] {
      var f := Flatten(pairs);
      assert f[2..] == Flatten(pairs[1..]);
      assert pairs[0..] == pairs;
      CollidesStep(pairs, 0);
      if IsClipboardOption(pairs[0].0) {
        var value := pairs[0].1;
        ScanReadsPairs(pairs[1..],
                       if pairs[0].0 == OPTION_CLIPBOARD_SHARING then s.(enabled := value != 0) else s.(size := value));
      } else {
        ScanReadsPairs(pairs[1..], s);
        assert f[1..][1..] == f[2..];
      }
    }
  }

  /** A value taken for a key may do no harm, set the wrong thing or lead past the end. */
  lemma CollisionsDiffer(s: Sharing)
    ensures var harmless := [(1, OPTION_CLIPBOARD_SHARING), (OPTION_CLIPBOARD_SHARING, 5)];
      Collides(harmless) && Scanned(Flatten(harmless), s) == Some(Applied(harmless, s))
    ensures var wrong := [(1, OPTION_CLIPBOARD_SHARING_SIZE), (7, 5)];
      Collides(wrong) && Scanned(Flatten(wrong), s) == Some(s.(size := 7)) && Applied(wrong, s) == s
    ensures var past := [(1, OPTION_CLIPBOARD_SHARING)];
      Collides(past) && Scanned(Flatten(past), s) == None
  {
    var c, z := OPTION_CLIPBOARD_SHARING, OPTION_CLIPBOARD_SHARING_SIZE;
    TwoPairs((1, c), (c, 5), s);
    TwoPairs((1, z), (7, 5), s);
    assert [(1, c), (c, 5)][0] == (1, c) && [(1, z), (7, 5)][0] == (1, z) && [(1, c)][0] == (1, c);
    assert Scanned([5], s.(enabled := true)) == Some(s.(enabled := true)) by { assert [5][1..] == []; }
    assert Scanned([5], s.(size := 7)) == Some(s.(size := 7)) by { assert [5][1..] == []; }
    assert [1, c, c, 5][1..] == [c, c, 5] && [c, c, 5][2..] == [5];
    assert [1, z, 7, 5][1..] == [z, 7, 5] && [z, 7, 5][2..] == [5];
    assert Flatten([(1, c)]) == [1, c] && [1, c][1..] == [c];
  }

  lemma TwoPairs(p: (nat, nat), q: (nat, nat), s: Sharing)
    ensures Flatten([p, q]) == [p.0, p.1, q.0, q.1]
    ensures Applied([p, q], s) == Applied([q], Applied([p], s))
    ensures Applied([p], s) ==
      if p.0 == OPTION_CLIPBOARD_SHARING then s.(enabled := p.1 != 0)
      else if p.0 == OPTION_CLIPBOARD_SHARING_SIZE then s.(size := p.1) else s
    ensures Applied([q], s) ==
      if q.0 == OPTION_CLIPBOARD_SHARING then s.(enabled := q.1 != 0)
      else if q.0 == OPTION_CLIPBOARD_SHARING_SIZE then s.(size := q.1) else s
  {
    assert [p, q][1..] == [q] && [p][1..] == [] && [q][1..] == [];
    assert Flatten([q]) == [q.0, q.1];
  }
}
