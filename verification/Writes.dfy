/** Every write to the database file in a run of the server, and what the file is in the end. */
module Writes {
  import opened Bytes
  import opened Employees
  import opened FileImage
  import opened Interpreter
  import opened EventLoop
  import opened Serial
  import Requests

  // ---------- one write after another ----------

  lemma OneMoreWrite(disk: seq<byte>, ws: seq<seq<Employee>>, es: seq<Employee>)
    requires Countable(ws) && |es| < 0x1_0000_0000
    ensures Countable(ws + [es]) && AfterWrites(disk, ws + [es]) == WriteDb(AfterWrites(disk, ws), es)
  {
    assert (ws + [es])[..|ws|] == ws;
  }

  lemma {:induction false} MoreWrites(disk: seq<byte>, a: seq<seq<Employee>>, b: seq<seq<Employee>>)
    requires Countable(a) && Countable(b)
    ensures Countable(a + b) && AfterWrites(disk, a + b) == AfterWrites(AfterWrites(disk, a), b)
    decreases |b|
  {
    if b == [] {
      assert a + b == a;
    } else {
      var n := |b| - 1;
      MoreWrites(disk, a, b[..n]);
      OneMoreWrite(disk, a + b[..n], b[n]);
      LastApart(b);
      Regrouped(a, b[..n], [b[n]]);
    }
  }

  /** A store that came from another one by these writes. */
  ghost predicate Leads(st: Store, ws: seq<seq<Employee>>, st': Store) {
    && Countable(ws) && st'.disk == AfterWrites(st.disk, ws)
    && (if ws == [] then st' == st else st'.employees == ws[|ws| - 1] && !CountsAsFailure(st'.employees))
  }

  lemma LeadsOn(st: Store, a: seq<seq<Employee>>, st1: Store, b: seq<seq<Employee>>, st2: Store)
    requires Leads(st, a, st1) && Leads(st1, b, st2)
    ensures Leads(st, a + b, st2)
  {
    MoreWrites(st.disk, a, b);
    if b == [] {
      assert a + b == a;
    }
  }

  lemma LeadsNowhere(st: Store)
    ensures Leads(st, [], st)
  {
  }

  // ---------- the writes of one request ----------

  /** A step that has read an option has saved the employees; one that has not read any leaves the body as it is. */
  function SavedIn(body: seq<byte>, s: Step): (ws: seq<seq<Employee>>) {
    if s.Next? && s.rest != body then [s.store.employees] else []
  }

  lemma SaveLeads(st: Store, es: seq<Employee>, rest: seq<byte>)
    requires |es| < 0x1_0000_0000
    ensures var s := Save(st.(employees := es), rest); s.Next? ==> Leads(st, [es], s.store) && s.rest == rest
  {
    assert [es][..0] == [];
    assert AfterWrites(st.disk, []) == st.disk;
  }

  lemma AddWrites(st: Store, body: seq<byte>)
    requires |st.employees| < 0x1_0000_0000
    ensures var s := AddStep(st, body); s.Next? ==> Leads(st, SavedIn(body, s), s.store)
  {
    LeadsNowhere(st);
    if body != [] && body[0] == Requests.ADD && Requests.TakeAdd(body[1..]).Some? && |st.employees| + 1 < 0x1_0000_0000 {
      var (e, rest) := Requests.TakeAdd(body[1..]).value;
      SaveLeads(st, st.employees + [e], rest);
    }
  }

  lemma UpdateWrites(st: Store, body: seq<byte>)
    requires |st.employees| < 0x1_0000_0000
    ensures var s := UpdateStep(st, body); s.Next? ==> Leads(st, SavedIn(body, s), s.store)
  {
    LeadsNowhere(st);
    if body != [] && body[0] == Requests.UPDATE && Requests.TakeUpdate(body[1..]).Some? {
      var (u, rest) := Requests.TakeUpdate(body[1..]).value;
      var i := FirstNamed(st.employees, u.name);
      if i < |st.employees| {
        SaveLeads(st, SetHours(st.employees, i, u.hours), rest);
      }
    }
  }

  lemma DeleteWrites(st: Store, body: seq<byte>)
    requires |st.employees| < 0x1_0000_0000
    ensures var s := DeleteStep(st, body); s.Next? ==> Leads(st, SavedIn(body, s), s.store)
  {
    LeadsNowhere(st);
    if body != [] && body[0] == Requests.DELETE && Requests.TakeText(body[1..]).Some? {
      var (name, rest) := Requests.TakeText(body[1..]).value;
      var i := FirstNamed(st.employees, name);
      if i < |st.employees| {
        SaveLeads(st, SwapRemove(st.employees, i), rest);
      }
    }
  }

  function SavedFromUpdate(st: Store, body: seq<byte>): (ws: seq<seq<Employee>>)
    requires |st.employees| < 0x1_0000_0000
  {
    var s := UpdateStep(st, body);
    SavedIn(body, s) + (if s.Next? then SavedIn(s.rest, DeleteStep(s.store, s.rest)) else [])
  }

  /** The lists of employees that interpreting a body writes to the file, in order. */
  function SavedBy(st: Store, body: seq<byte>): (ws: seq<seq<Employee>>)
    requires |st.employees| < 0x1_0000_0000
  {
    var s := AddStep(st, body);
    SavedIn(body, s) + (if s.Next? then SavedFromUpdate(s.store, s.rest) else [])
  }

  lemma DeleteLeads(st: Store, body: seq<byte>)
    requires |st.employees| < 0x1_0000_0000
    ensures var (s, r) := (DeleteStep(st, body), Respond(DeleteStep(st, body)));
            r.Done? ==> Leads(st, SavedIn(body, s), r.store)
  {
    DeleteWrites(st, body);
    LeadsNowhere(st);
  }

  lemma UpdateLeads(st: Store, body: seq<byte>)
    requires |st.employees| < 0x1_0000_0000
    ensures var r := FromDelete(UpdateStep(st, body)); r.Done? ==> Leads(st, SavedFromUpdate(st, body), r.store)
  {
    var s := UpdateStep(st, body);
    UpdateWrites(st, body);
    LeadsNowhere(st);
    if s.Next? {
      DeleteLeads(s.store, s.rest);
      var r := FromDelete(s);
      if r.Done? {
        LeadsOn(st, SavedIn(body, s), s.store, SavedIn(s.rest, DeleteStep(s.store, s.rest)), r.store);
      }
    }
  }

  /** Whatever a body says, the file afterwards is what these writes make of it, and the last one is what is in memory. */
  lemma InterpretLeads(st: Store, body: seq<byte>)
    requires |st.employees| < 0x1_0000_0000
    ensures var r := Interpret(st, body); r.Done? ==> Leads(st, SavedBy(st, body), r.store)
  {
    var s := AddStep(st, body);
    AddWrites(st, body);
    if s.Next? {
      UpdateLeads(s.store, s.rest);
      var r := FromUpdate(s);
      if r.Done? {
        LeadsOn(st, SavedIn(body, s), s.store, SavedFromUpdate(s.store, s.rest), r.store);
      }
    }
  }

  // ---------- the writes that a request means ----------

  function MeantFromUpdate(es: seq<Employee>, o: Options): (ws: seq<seq<Employee>>) {
    if !UpdateFinds(es, o) then []
    else
      var es' := Updated(es, o);
      (if o.update.Some? then [es'] else []) + (if o.delete.Some? && DeleteFinds(es', o) then [Deleted(es', o)] else [])
  }

  /** After its add, its update and its delete a request saves the employees there are then, as far as it gets. */
  function MeantWrites(es: seq<Employee>, o: Options): (ws: seq<seq<Employee>>) {
    (if o.add.Some? then [Added(es, o)] else []) + MeantFromUpdate(Added(es, o), o)
  }

  lemma DeleteMeant(st: Store, o: Options)
    requires |st.employees| < 0x1_0000_0000 && Requests.ValidOptions(o)
    ensures var body := Requests.DeletePart(o.delete) + Requests.ListPart(o.list);
            var s := DeleteStep(st, body);
            Respond(s).Done? ==>
            SavedIn(body, s) == if o.delete.Some? && DeleteFinds(st.employees, o) then [Deleted(st.employees, o)] else []
  {
    PartsStart(o);
    DeleteStepOfPart(st, o, Requests.ListPart(o.list));
  }

  lemma UpdateMeant(st: Store, o: Options)
    requires |st.employees| < 0x1_0000_0000 && Requests.ValidOptions(o)
    ensures var body := Requests.UpdatePart(o.update) + (Requests.DeletePart(o.delete) + Requests.ListPart(o.list));
            FromDelete(UpdateStep(st, body)).Done? ==> SavedFromUpdate(st, body) == MeantFromUpdate(st.employees, o)
  {
    var body := Requests.UpdatePart(o.update) + (Requests.DeletePart(o.delete) + Requests.ListPart(o.list));
    PartsStart(o);
    UpdateStepOfPart(st, o, Requests.DeletePart(o.delete) + Requests.ListPart(o.list));
    var s := UpdateStep(st, body);
    if s.Next? {
      DeleteMeant(s.store, o);
    }
  }

  lemma RequestWrites(st: Store, o: Options)
    requires |st.employees| < 0x1_0000_0000 && Requests.ValidOptions(o)
    ensures Interpret(st, Requests.Encode(o)).Done? ==> SavedBy(st, Requests.Encode(o)) == MeantWrites(st.employees, o)
  {
    var rest := Requests.UpdatePart(o.update) + (Requests.DeletePart(o.delete) + Requests.ListPart(o.list));
    PartsStart(o);
    AddStepOfPart(st, o, rest);
    var s := AddStep(st, Requests.Encode(o));
    if s.Next? {
      UpdateMeant(s.store, o);
    }
  }

  ghost function MeantWritesOfAll(es: seq<Employee>, os: seq<Options>): (ws: seq<seq<Employee>>) {
    if os == [] then []
    else
      var n := |os| - 1;
      MeantWritesOfAll(es, os[..n]) + MeantWrites(MeaningAll(es, os[..n]), os[n])
  }

  // ---------- the writes of a run ----------

  /** All that interpreting bodies one after another writes to the file. */
  ghost function SavedByAll(st: Store, bodies: seq<seq<byte>>): (ws: seq<seq<Employee>>)
    requires |st.employees| < 0x1_0000_0000
  {
    if bodies == [] then []
    else
      var n := |bodies| - 1;
      var before := ApplyAll(st, bodies[..n]);
      SavedByAll(st, bodies[..n]) + (if before.Some? then SavedBy(before.value, bodies[n]) else [])
  }

  lemma {:induction false} ApplyLeads(st: Store, bodies: seq<seq<byte>>)
    requires |st.employees| < 0x1_0000_0000
    ensures var r := ApplyAll(st, bodies); r.Some? ==> Leads(st, SavedByAll(st, bodies), r.value)
    decreases |bodies|
  {
    if bodies == [] {
      LeadsNowhere(st);
    } else {
      var n := |bodies| - 1;
      var before, r := ApplyAll(st, bodies[..n]), ApplyAll(st, bodies);
      ApplyLeads(st, bodies[..n]);
      if r.Some? {
        InterpretLeads(before.value, bodies[n]);
        LeadsOn(st, SavedByAll(st, bodies[..n]), before.value, SavedBy(before.value, bodies[n]), r.value);
      }
    }
  }

  /** The file of a running server is what the writes of its completed requests have made of the file it was started
      on. A restart passes the header check exactly if the image of what is in memory is the largest there has been. */
  lemma FileOfRun(c0: Server, inputs: seq<Input>)
    requires Init(c0) && After(c0, inputs).status == Running
    ensures var (st, ws) := (After(c0, inputs).store, SavedByAll(c0.store, Bodies(History(c0, inputs))));
            && Leads(c0.store, ws, st) && |st.disk| == Largest(|c0.store.disk|, ws)
            && (OnDisk(c0.store) ==>
                |st.disk| >= HEADER
                && (Accepts(st.disk) <==> |Image(st.employees)| == |st.disk| && |Image(st.employees)| < 0x1_0000_0000))
  {
    var st, bodies := After(c0, inputs).store, Bodies(History(c0, inputs));
    Serialisable(c0, inputs);
    ApplyLeads(c0.store, bodies);
    LengthAfterWrites(c0.store.disk, SavedByAll(c0.store, bodies));
    if OnDisk(c0.store) {
      ApplyKeepsDisk(c0.store, bodies);
      AcceptedSize(st);
    }
  }

  lemma {:induction false} EncodedWrites(st: Store, os: seq<Options>, bodies: seq<seq<byte>>)
    requires |st.employees| < 0x1_0000_0000 && Encodes(os, bodies) && ApplyAll(st, bodies).Some?
    ensures SavedByAll(st, bodies) == MeantWritesOfAll(st.employees, os)
    decreases |os|
  {
    if os != [] {
      var n := |os| - 1;
      var before, es := ApplyAll(st, bodies[..n]), MeaningAll(st.employees, os[..n]);
      LastApart(bodies);
      EncodesBefore(os, bodies[..n], bodies[n]);
      EncodedWrites(st, os[..n], bodies[..n]);
      ApplyEncoded(st, os[..n], bodies[..n]);
      RequestWrites(before.value, os[n]);
      assert before.value.employees == es && SavedBy(before.value, bodies[n]) == MeantWrites(es, os[n]);
    }
  }

  /** When the completed bodies are requests, the writes are those that these mean one after another. */
  lemma WritesOfRun(c0: Server, inputs: seq<Input>, os: seq<Options>)
    requires Init(c0) && After(c0, inputs).status == Running
    ensures Encodes(os, Bodies(History(c0, inputs))) ==>
            SavedByAll(c0.store, Bodies(History(c0, inputs))) == MeantWritesOfAll(c0.store.employees, os)
  {
    if Encodes(os, Bodies(History(c0, inputs))) {
      Serialisable(c0, inputs);
      EncodedWrites(c0.store, os, Bodies(History(c0, inputs)));
    }
  }

  lemma AcceptedSize(st: Store)
    requires OnDisk(st)
    ensures |st.disk| >= HEADER
    ensures Accepts(st.disk) <==> |st.disk| == |Image(st.employees)| && |st.disk| < 0x1_0000_0000
  {
    var image := Image(st.employees);
    assert st.disk[..4] == image[..4] == Be32(st.fsize);
    Be32RoundTrip(st.fsize);
    FitsWhenExact(|image|, |st.disk|);
  }
}
