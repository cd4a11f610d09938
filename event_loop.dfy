/**
 * The dedup step of `main_loop`: every `CreatePost` update whose post id
 * was not seen before is handed to the post handler, and its id is then
 * appended to `processed` and written to the dedup file, whatever the
 * handler did.
 */
module EventLoop {
  import opened Wrappers
  import opened PostHandler
  import opened DedupStore

  /** A decoded websocket message: its `op` and, for a post, the post's id and url. */
  datatype Update = Update(op: string, postId: int, url: Option<string>)

  const CreatePost: string := "CreatePost"

  /** The loop hands `u` to the post handler. */
  predicate IsNewPost(processed: seq<int>, u: Update) {
    u.op == CreatePost && u.postId !in processed
  }

  /** `processed` after the loop has dealt with `u`. */
  function Next(processed: seq<int>, u: Update): (next: seq<int>) {
    if IsNewPost(processed, u) then processed + [u.postId] else processed
  }

  /** `processed` after the loop has dealt with every update of `us`, in order. */
  function Replay(processed: seq<int>, us: seq<Update>): (final: seq<int>)
    decreases |us|
  {
    if us == [] then processed else Replay(Next(processed, us[0]), us[1..])
  }

  /** The ids the post handler is called for while the loop deals with `us`. */
  function Handled(processed: seq<int>, us: seq<Update>): (ids: seq<int>)
    decreases |us|
  {
    if us == [] then []
    else (if IsNewPost(processed, us[0]) then [us[0].postId] else [])
         + Handled(Next(processed, us[0]), us[1..])
  }

  /** What the loop prints for `u`, given the identification reply for its url. */
  function Emitted(processed: seq<int>, u: Update, response: Identification): (r: Option<string>)
    ensures r.Some? ==> IsNewPost(processed, u)
  {
    if IsNewPost(processed, u) then Comment(u.url, response) else None
  }

  /** What the loop prints for each update of `us`, `rs[i]` being the reply for `us[i]`. */
  function Emissions(processed: seq<int>, us: seq<Update>, rs: seq<Identification>): (out: seq<Option<string>>)
    requires |rs| == |us|
    ensures |out| == |us|
    decreases |us|
  {
    if us == [] then []
    else [Emitted(processed, us[0], rs[0])] + Emissions(Next(processed, us[0]), us[1..], rs[1..])
  }

  ghost predicate NoDuplicates(s: seq<int>) {
    forall i, j :: 0 <= i < j < |s| ==> s[i] != s[j]
  }

  lemma {:induction false} ReplayAppend(p: seq<int>, us: seq<Update>, u: Update)
    ensures Replay(p, us + [u]) == Next(Replay(p, us), u)
    decreases |us|
  {
    if us == [] {
      assert ([] + [u])[1..] == [];
    } else {
      assert (us + [u])[1..] == us[1..] + [u];
      ReplayAppend(Next(p, us[0]), us[1..], u);
    }
  }

  lemma {:induction false} ReplayConcat(p: seq<int>, us: seq<Update>, vs: seq<Update>)
    ensures Replay(p, us + vs) == Replay(Replay(p, us), vs)
    decreases |us|
  {
    if us == [] {
      assert [] + vs == vs;
    } else {
      assert (us + vs)[1..] == us[1..] + vs;
      ReplayConcat(Next(p, us[0]), us[1..], vs);
    }
  }

  lemma {:induction false} EmissionsAppend(p: seq<int>, us: seq<Update>, rs: seq<Identification>, u: Update, r: Identification)
    requires |rs| == |us|
    ensures Emissions(p, us + [u], rs + [r]) == Emissions(p, us, rs) + [Emitted(Replay(p, us), u, r)]
    decreases |us|
  {
    if us == [] {
      assert ([] + [u])[1..] == [];
      assert ([] + [r])[1..] == [];
    } else {
      assert (us + [u])[1..] == us[1..] + [u];
      assert (rs + [r])[1..] == rs[1..] + [r];
      EmissionsAppend(Next(p, us[0]), us[1..], rs[1..], u, r);
    }
  }

  /** Dealing with `us` and then `vs` prints what the two runs print one after the other. */
  lemma {:induction false} EmissionsConcat(p: seq<int>, us: seq<Update>, rs: seq<Identification>,
                                           vs: seq<Update>, ws: seq<Identification>)
    requires |rs| == |us| && |ws| == |vs|
    ensures Emissions(p, us + vs, rs + ws) == Emissions(p, us, rs) + Emissions(Replay(p, us), vs, ws)
    decreases |us|
  {
    if us == [] {
      assert [] + vs == vs && [] + ws == ws;
    } else {
      assert (us + vs)[1..] == us[1..] + vs;
      assert (rs + ws)[1..] == rs[1..] + ws;
      EmissionsConcat(Next(p, us[0]), us[1..], rs[1..], vs, ws);
    }
  }

  /** `processed` only grows, by exactly the ids handed to the handler;
      those are pairwise distinct and none was in `processed` before. */
  lemma {:induction false} ReplayAppendsHandled(p: seq<int>, us: seq<Update>)
    ensures Replay(p, us) == p + Handled(p, us)
    ensures NoDuplicates(Handled(p, us))
    ensures forall id :: id in Handled(p, us) ==> id !in p
    decreases |us|
  {
    if us != [] {
      var p' := Next(p, us[0]);
      ReplayAppendsHandled(p', us[1..]);
      var head := if IsNewPost(p, us[0]) then [us[0].postId] else [];
      var h := Handled(p, us);
      assert h == head + Handled(p', us[1..]);
      assert p' == p + head;
      assert Replay(p, us) == p' + Handled(p', us[1..]);
      forall i, j | 0 <= i < j < |h| ensures h[i] != h[j] {
        if i < |head| {
          assert h[j] in Handled(p', us[1..]);
          assert h[i] in p';
        }
      }
    }
  }

  /** An id is handed to the handler exactly when it was not in `processed`
      and some `CreatePost` update carries it. */
  lemma {:induction false} HandledExactlyNewPosts(p: seq<int>, us: seq<Update>, id: int)
    ensures id in Handled(p, us) <==>
            id !in p && exists k :: 0 <= k < |us| && us[k].op == CreatePost && us[k].postId == id
    decreases |us|
  {
    ReplayAppendsHandled(p, us);
    if us != [] {
      var p' := Next(p, us[0]);
      HandledExactlyNewPosts(p', us[1..], id);
      if id !in p && exists k :: 0 <= k < |us| && us[k].op == CreatePost && us[k].postId == id {
        var k :| 0 <= k < |us| && us[k].op == CreatePost && us[k].postId == id;
        if k > 0 && !(us[0].op == CreatePost && us[0].postId == id) {
          assert us[1..][k - 1] == us[k];
        }
      }
      if id in Handled(p', us[1..]) {
        var k :| 0 <= k < |us[1..]| && us[1..][k].op == CreatePost && us[1..][k].postId == id;
        assert us[k + 1] == us[1..][k];
      }
    }
  }

  /** A duplicate-free `processed` stays duplicate-free. */
  lemma ReplayKeepsNoDuplicates(p: seq<int>, us: seq<Update>)
    requires NoDuplicates(p)
    ensures NoDuplicates(Replay(p, us))
  {
    ReplayAppendsHandled(p, us);
    var h := Handled(p, us);
    var r := p + h;
    forall i, j | 0 <= i < j < |r| ensures r[i] != r[j] {
      if i < |p| && |p| <= j {
        assert r[j] == h[j - |p|];
        assert r[j] in h;
      } else if |p| <= i {
        assert r[i] == h[i - |p|] && r[j] == h[j - |p|];
      }
    }
  }

  /** Over any run of updates at most one comment is printed per post id,
      and none for an id already in `processed`. */
  lemma {:induction false} AtMostOneCommentPerId(p: seq<int>, us: seq<Update>, rs: seq<Identification>)
    requires |rs| == |us|
    ensures forall k :: 0 <= k < |us| && Emissions(p, us, rs)[k].Some? ==> us[k].postId !in p
    ensures forall i, j :: 0 <= i < j < |us| && Emissions(p, us, rs)[i].Some? && Emissions(p, us, rs)[j].Some?
              ==> us[i].postId != us[j].postId
    decreases |us|
  {
    if us != [] {
      var p' := Next(p, us[0]);
      AtMostOneCommentPerId(p', us[1..], rs[1..]);
      var e := Emissions(p, us, rs);
      var e' := Emissions(p', us[1..], rs[1..]);
      assert e == [Emitted(p, us[0], rs[0])] + e';
      forall k | 0 <= k < |us| && e[k].Some? ensures us[k].postId !in p {
        if k > 0 {
          assert e[k] == e'[k - 1] && us[k] == us[1..][k - 1];
        }
      }
      forall i, j | 0 <= i < j < |us| && e[i].Some? && e[j].Some? ensures us[i].postId != us[j].postId {
        assert e[j] == e'[j - 1] && us[j] == us[1..][j - 1];
        if i == 0 {
          assert us[0].postId in p';
        } else {
          assert e[i] == e'[i - 1] && us[i] == us[1..][i - 1];
        }
      }
    }
  }

  /** Across two connections served by the same bot, one after the other,
      no post id gets a comment in both. */
  lemma AtMostOneCommentAcrossConnections(p: seq<int>, us1: seq<Update>, rs1: seq<Identification>,
                                          us2: seq<Update>, rs2: seq<Identification>)
    requires |rs1| == |us1| && |rs2| == |us2|
    ensures forall i, j ::
              0 <= i < |us1| && 0 <= j < |us2| && Emissions(p, us1, rs1)[i].Some? &&
              Emissions(Replay(p, us1), us2, rs2)[j].Some?
              ==> us1[i].postId != us2[j].postId
  {
    var e1, e2 := Emissions(p, us1, rs1), Emissions(Replay(p, us1), us2, rs2);
    EmissionsConcat(p, us1, rs1, us2, rs2);
    AtMostOneCommentPerId(p, us1 + us2, rs1 + rs2);
    var e := Emissions(p, us1 + us2, rs1 + rs2);
    forall i, j | 0 <= i < |us1| && 0 <= j < |us2| && e1[i].Some? && e2[j].Some?
      ensures us1[i].postId != us2[j].postId
    {
      assert e[i] == e1[i] && e[|us1| + j] == e2[j];
      assert (us1 + us2)[i] == us1[i] && (us1 + us2)[|us1| + j] == us2[j];
    }
  }

  /**
   * The bot's state across the lifetime of the process: the in-memory
   * `processed` list and the dedup file on disk. It is built once from the
   * file, before any (re)connection, so reconnecting never resets it.
   */
  class Bot {
    var processed: seq<int>
    var file: StoredFile
    ghost var loaded: seq<int>
    ghost var received: seq<Update>

    /** `processed` is what the loop made of the loaded list and the updates
        received so far, and the file on disk always loads back to it. */
    ghost predicate Valid()
      reads this
    {
      processed == Replay(loaded, received) && LoadProcessed(file) == Some(processed)
    }

    /** Starts from the dedup file; a file that does not unpickle stops the
        process before the loop, so the bot exists only for a readable one. */
    constructor (stored: StoredFile)
      requires LoadProcessed(stored).Some?
      ensures Valid()
      ensures file == stored && processed == LoadProcessed(stored).value
      ensures loaded == processed && received == []
    {
      file := stored;
      processed := LoadProcessed(stored).value;
      loaded := LoadProcessed(stored).value;
      received := [];
    }

    /** One iteration of the receive loop, `response` being PlantNet's reply
        for the update's url should the handler ask for it. */
    method Step(update: Update, response: Identification) returns (comment: Option<string>)
      requires Valid()
      modifies this
      ensures Valid()
      ensures loaded == old(loaded) && received == old(received) + [update]
      ensures update.op != CreatePost ==> processed == old(processed) && file == old(file) && comment == None
      ensures update.op == CreatePost && update.postId in old(processed) ==>
                processed == old(processed) && file == old(file) && comment == None
      ensures update.op == CreatePost && update.postId !in old(processed) ==>
                processed == old(processed) + [update.postId] && file == DumpProcessed(processed)
                && comment == Comment(update.url, response)
      ensures processed == Next(old(processed), update)
      ensures comment == Emitted(old(processed), update, response)
    {
      ReplayAppend(loaded, received, update);
      if update.op != CreatePost {
        comment := None;
      } else if update.postId in processed {
        comment := None;
      } else {
        comment := HandlePost(update.url, response);
        processed := processed + [update.postId];
        file := DumpProcessed(processed);
      }
      received := received + [update];
    }

    /** The `while True` receive loop over the updates of one connection;
        `responses[i]` is PlantNet's reply for `updates[i]`. */
    method Listen(updates: seq<Update>, responses: seq<Identification>) returns (comments: seq<Option<string>>)
      requires Valid() && |responses| == |updates|
      modifies this
      ensures Valid()
      ensures loaded == old(loaded) && received == old(received) + updates
      ensures processed == Replay(old(processed), updates)
      ensures comments == Emissions(old(processed), updates, responses)
    {
      comments := [];
      for i := 0 to |updates|
        invariant Valid()
        invariant loaded == old(loaded) && received == old(received) + updates[..i]
        invariant processed == Replay(old(processed), updates[..i])
        invariant comments == Emissions(old(processed), updates[..i], responses[..i])
      {
        var c := Step(updates[i], responses[i]);
        ReplayAppend(old(processed), updates[..i], updates[i]);
        EmissionsAppend(old(processed), updates[..i], responses[..i], updates[i], responses[i]);
        assert updates[..i + 1] == updates[..i] + [updates[i]];
        assert responses[..i + 1] == responses[..i] + [responses[i]];
        comments := comments + [c];
      }
      assert updates[..|updates|] == updates;
      assert responses[..|responses|] == responses;
    }
  }
}
