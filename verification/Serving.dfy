/** The connection loop: a fresh cache, a frame, a mark in the accounts store, one operation, a response. */
module Serving {
  import opened Tables
  import Crashes
  import Databases
  import Frames
  import Isolation
  import Machine

  type Frame = Frames.Frame

  /**
   What a frame leads to. An empty one is passed over without an answer; Crashed is the end of the process, and Stuck a
   handler that never answers, nor lets go of the locks.
   */
  datatype Response = Answered(reply: Reply) | Silent | Crashed | Stuck {
    predicate Final() { Crashed? || Stuck? }
  }

  function ResponseTo(reply: Reply): Response {
    match reply
    case Panicked => Crashed
    case Blocked => Stuck
    case _ => Answered(reply)
  }

  /** The operation and the response, once the cache is fresh. */
  function Handle(clean: Machine.State, frame: Frame): (r: (Machine.State, Response))
    requires Machine.Valid(clean)
    ensures Machine.Valid(r.0)
  {
    if frame == [] then (clean, Silent)
    else match Frames.Decode(frame)
      case Panics => (clean, Crashed)
      case Rejected(error) => (clean, Answered(Failed(error)))
      case Accepted(call) =>
        Frames.AcceptedWellFormed(frame);
        Machine.StepKeepsValid(clean, call);
        (Machine.Step(clean, call).0, ResponseTo(Machine.Step(clean, call).1))
  }

  function Respond(st: Machine.State, frame: Frame): (r: (Machine.State, Response))
    requires Machine.Valid(st)
    ensures Machine.Valid(r.0)
  {
    Machine.FreshIsValid(st);
    Handle(Machine.Fresh(st), frame)
  }

  /** An accepted frame is one step, and the client is told its reply, unless that never comes. */
  lemma RespondsToCall(st: Machine.State, frame: Frame, call: Machine.Call)
    requires Machine.Valid(st) && Frames.Asks(frame, call)
    ensures Machine.Valid(Machine.Fresh(st)) && Machine.WellFormed(call)
    ensures
      var (next, reply) := Machine.Step(Machine.Fresh(st), call);
      && Respond(st, frame).0 == next
      && (reply.Panicked? ==> Respond(st, frame).1 == Crashed)
      && (reply.Blocked? ==> Respond(st, frame).1 == Stuck)
      && (!reply.Panicked? && !reply.Blocked? ==> Respond(st, frame).1 == Answered(reply))
  {
    Machine.FreshIsValid(st);
    Frames.AcceptedWellFormed(frame);
  }

  /** Any other frame asks for nothing: it is not answered if empty, ends the process, or is answered with its error. */
  lemma RespondsToOthers(st: Machine.State, frame: Frame)
    requires Machine.Valid(st) && (frame == [] || !Frames.Decode(frame).Accepted?)
    ensures frame == [] <==> Respond(st, frame).1 == Silent
    ensures frame != [] && Frames.Decode(frame).Panics? ==> Respond(st, frame).1 == Crashed
    ensures frame != [] && Frames.Decode(frame).Rejected? ==>
              Respond(st, frame).1 == Answered(Failed(Frames.Decode(frame).error))
    ensures Respond(st, frame).0.view == Respond(st, frame).0.base && Respond(st, frame).0.cursors == st.cursors
  {
  }

  datatype Session = Session(st: Machine.State, responses: seq<Response>, ended: bool)

  /** One more frame, unless the loop has ended. */
  function Extend(before: Session, frame: Frame): (session: Session)
    requires Machine.Valid(before.st)
    ensures Machine.Valid(session.st)
    ensures before.ended ==> session == before
  {
    if before.ended then before
    else
      var (next, response) := Respond(before.st, frame);
      Session(next, before.responses + [response], response.Final())
  }

  /** The first n frames in turn, up to the first that is not got over. */
  function RespondAll(st: Machine.State, frames: seq<Frame>, n: nat): (session: Session)
    requires Machine.Valid(st) && n <= |frames|
    ensures Machine.Valid(session.st)
  {
    if n == 0 then Session(st, [], false) else Extend(RespondAll(st, frames, n - 1), frames[n - 1])
  }

  lemma {:induction false} EndIsFinal(st: Machine.State, frames: seq<Frame>, i: nat, n: nat)
    requires Machine.Valid(st) && i <= n <= |frames| && RespondAll(st, frames, i).ended
    ensures RespondAll(st, frames, n) == RespondAll(st, frames, i)
    decreases n
  {
    if i < n {
      EndIsFinal(st, frames, i, n - 1);
    }
  }

  // ---------- What a connection leaves in the committed stores ----------

  /** One frame marks base and changes nothing else in it, even a Write: its cache is fresh. */
  lemma RespondMarks(st: Machine.State, frame: Frame)
    requires Machine.Valid(st)
    ensures Respond(st, frame).0.base == Machine.Marked(st.base)
  {
    Machine.FreshIsValid(st);
    if frame != [] && Frames.Decode(frame).Accepted? {
      Frames.EncodeDecode(frame);
      Frames.AcceptedWellFormed(frame);
      Isolation.CleanStep(Machine.Fresh(st), Frames.Decode(frame).call);
    }
  }

  lemma ExtendMarks(before: Session, frame: Frame)
    requires Machine.Valid(before.st)
    ensures Extend(before, frame).st.base == if before.ended then before.st.base else Machine.Marked(before.st.base)
  {
    if !before.ended {
      RespondMarks(before.st, frame);
    }
  }

  /** What base is once n frames have been answered. */
  ghost function MarkedAfter(base: map<TableCode, Store>, n: nat): map<TableCode, Store> {
    if n == 0 then base else Machine.Marked(base)
  }

  lemma MarkedOnce(base: map<TableCode, Store>, n: nat)
    ensures Machine.Marked(MarkedAfter(base, n)) == MarkedAfter(base, n + 1)
    ensures n > 0 ==> MarkedAfter(base, n) == MarkedAfter(base, n + 1)
  {
    Machine.MarkedTwice(base);
  }

  lemma {:induction false} ConnectionMarks(st: Machine.State, frames: seq<Frame>, n: nat)
    requires Machine.Valid(st) && n <= |frames|
    ensures RespondAll(st, frames, n).st.base == MarkedAfter(st.base, n)
    decreases n
  {
    if n > 0 {
      ConnectionMarks(st, frames, n - 1);
      ExtendMarks(RespondAll(st, frames, n - 1), frames[n - 1]);
      MarkedOnce(st.base, n - 1);
    }
  }

  /**
   On a single connection the committed stores never change, whatever frames it sends, but for the mark: the key {1}
   that the loop itself sets in the accounts store with the first frame.
   */
  lemma ConnectionPublishesNothing(st: Machine.State, frames: seq<Frame>, n: nat)
    requires Machine.Valid(st) && n <= |frames|
    ensures n == 0 ==> RespondAll(st, frames, n).st.base == st.base
    ensures n > 0 ==> Machine.OnlyMarkAdded(st.base, RespondAll(st, frames, n).st.base)
  {
    ConnectionMarks(st, frames, n);
    Machine.MarkedOnlyAdds(st.base);
  }

  // ---------- The responses of a session ----------

  /** The i-th response is that to the i-th frame, in the state that the frames before it have left. */
  predicate InTurn(st: Machine.State, frames: seq<Frame>, n: nat, i: nat)
    requires Machine.Valid(st) && i < n <= |frames|
  {
    var before, session := RespondAll(st, frames, i), RespondAll(st, frames, n);
    && i < |session.responses|
    && Respond(before.st, frames[i]) == (RespondAll(st, frames, i + 1).st, session.responses[i])
  }

  /**
   A session answers its frames one by one, each in the state left by those before, up to the first whose response is
   final: that one ends it, and no frame after it is looked at.
   */
  lemma {:induction false} SessionInTurn(st: Machine.State, frames: seq<Frame>, n: nat)
    requires Machine.Valid(st) && n <= |frames|
    ensures
      var session := RespondAll(st, frames, n);
      && |session.responses| <= n
      && (forall i | 0 <= i < |session.responses| :: InTurn(st, frames, n, i))
      && (forall i | 0 <= i < |session.responses| - 1 ::
            !session.responses[i].Crashed? && !session.responses[i].Stuck?)
      && (session.ended
          <==> |session.responses| > 0
               && (session.responses[|session.responses| - 1].Crashed?
                   || session.responses[|session.responses| - 1].Stuck?))
      && (!session.ended ==> |session.responses| == n)
    decreases n
  {
    if n > 0 {
      SessionInTurn(st, frames, n - 1);
      var before, session := RespondAll(st, frames, n - 1), RespondAll(st, frames, n);
      forall i | 0 <= i < |session.responses| ensures InTurn(st, frames, n, i) {
        if i < |before.responses| {
          assert InTurn(st, frames, n - 1, i);
        }
      }
    }
  }

  /** The frames that end the process, in any state: see module Crashes for the two kinds of call. */
  lemma CrashesWhen(st: Machine.State, frame: Frame)
    requires Machine.Valid(st)
    ensures Respond(st, frame).1.Crashed?
            <==> frame != []
                 && (Frames.Decode(frame).Panics?
                     || (Frames.Decode(frame).Accepted?
                         && (Crashes.ShortCursor(st, Frames.Decode(frame).call)
                             || Crashes.AppendToMark(st, Frames.Decode(frame).call))))
  {
    if frame != [] && Frames.Decode(frame).Accepted? {
      var call := Frames.Decode(frame).call;
      Frames.EncodeDecode(frame);
      Crashes.StepPanicsWhen(st, call);
      RespondsToCall(st, frame, call);
    }
  }

  /** The frames that are never answered: relative moves on an unset cursor, over a table with an entry. */
  lemma StuckWhen(st: Machine.State, frame: Frame)
    requires Machine.Valid(st)
    ensures Respond(st, frame).1.Stuck?
            <==> frame != [] && Frames.Decode(frame).Accepted?
                 && Crashes.UnsetMove(st, Frames.Decode(frame).call)
  {
    if frame != [] && Frames.Decode(frame).Accepted? {
      var call := Frames.Decode(frame).call;
      Frames.EncodeDecode(frame);
      Crashes.StepBlocksWhen(st, call);
      RespondsToCall(st, frame, call);
    }
  }

  // ---------- The loop ----------

  lemma OneMoreFrame(st: Machine.State, frames: seq<Frame>, i: nat, before: Session)
    requires Machine.Valid(st) && i < |frames| && RespondAll(st, frames, i) == before && !before.ended
    ensures
      var (next, response) := Respond(before.st, frames[i]);
      RespondAll(st, frames, i + 1) == Session(next, before.responses + [response], response.Final())
  {
  }

  method Perform(db: Databases.Database, frame: Frame) returns (response: Response)
    requires db.Valid()
    modifies db
    ensures db.Valid() && (db.State(), response) == Handle(old(db.State()), frame)
  {
    if frame == [] {
      return Silent;
    }
    match Frames.Decode(frame)
    case Panics =>
      response := Crashed;
    case Rejected(error) =>
      response := Answered(Failed(error));
    case Accepted(call) =>
      Frames.AcceptedWellFormed(frame);
      var reply := db.Perform(call);
      response := ResponseTo(reply);
  }

  method Serve(db: Databases.Database, frame: Frame) returns (response: Response)
    requires db.Valid()
    modifies db
    ensures db.Valid() && (db.State(), response) == Respond(old(db.State()), frame)
  {
    ghost var st := db.State();
    db.Reset();
    db.Mark();
    assert db.State() == Machine.Fresh(st);
    response := Perform(db, frame);
  }

  /** The loop itself. It has started another fresh cache before the read that ends the connection. */
  method AnswerFrames(db: Databases.Database, frames: seq<Frame>) returns (responses: seq<Response>)
    requires db.Valid()
    modifies db
    ensures db.Valid()
    ensures
      var session := RespondAll(old(db.State()), frames, |frames|);
      && responses == session.responses
      && db.State() == if session.ended then session.st else session.st.(view := session.st.base)
  {
    ghost var start := db.State();
    responses := [];
    for i := 0 to |frames|
      invariant db.Valid() && RespondAll(start, frames, i) == Session(db.State(), responses, false)
    {
      ghost var before := db.State();
      OneMoreFrame(start, frames, i, Session(before, responses, false));
      var response := Serve(db, frames[i]);
      responses := responses + [response];
      if response.Final() {
        EndIsFinal(start, frames, i + 1, |frames|);
        return;
      }
    }
    ghost var last := db.State();
    db.Reset();
    assert db.State() == last.(view := last.base);
  }

  /** The connection handler, from the frames a client sends to what it leaves behind. */
  method HandleConnection(db: Databases.Database, frames: seq<Frame>) returns (responses: seq<Response>)
    requires db.Valid()
    modifies db
    ensures db.Valid()
    ensures
      var session := RespondAll(old(db.State()), frames, |frames|);
      && responses == session.responses
      && db.State() == if session.ended then session.st else session.st.(view := session.st.base)
    ensures frames == [] ==> db.State().base == old(db.State()).base
    ensures frames != [] ==> Machine.OnlyMarkAdded(old(db.State()).base, db.State().base)
  {
    ghost var start := db.State();
    responses := AnswerFrames(db, frames);
    ConnectionPublishesNothing(start, frames, |frames|);
  }
}
