/** What `deserialize_request_options` does to the database, and what a request is meant to do. */
module Interpreter {
  import opened Bytes
  import opened Employees
  import opened FileImage
  import opened Requests
  import Framing

  /** The employees and header in memory, and the bytes of the file. */
  datatype Store = Store(employees: seq<Employee>, fsize: uint32, disk: seq<byte>)

  datatype Response = NotFound | Success(data: seq<byte>)

  const RESPONSE_HEADER: nat := 9

  /** The bytes of a response. With flag 1 the length field is never written. */
  ghost predicate IsResponse(bytes: seq<byte>, r: Response) {
    match r
    case NotFound =>
      |bytes| == RESPONSE_HEADER && bytes[..4] == HostWord(Framing.DB_ACCESS_RESPONSE) && bytes[4] == 1
    case Success(data) =>
      |data| < 0x1_0000_0000 && bytes == HostWord(Framing.DB_ACCESS_RESPONSE) + [0] + Be32(|data|) + data
  }

  function ResponseLength(r: Response): (n: nat) {
    match r
    case NotFound => RESPONSE_HEADER
    case Success(data) => RESPONSE_HEADER + |data|
  }

  /** Going on with the next option, stopping early, a failed write, or undefined behaviour:
      a read past the end of the body, or a count or response size beyond 32 bits. */
  datatype Step = Next(store: Store, rest: seq<byte>) | Stop(store: Store, rest: seq<byte>) | Fails | Undefined

  datatype Result = Done(store: Store, response: Response, rest: seq<byte>) | Failed | Crashed

  /** `write_db`, then on to the next option. */
  function Save(st: Store, rest: seq<byte>): Step
    requires |st.employees| < 0x1_0000_0000
  {
    if CountsAsFailure(st.employees) then Fails
    else Next(Store(st.employees, FileSize(st.employees), WriteDb(st.disk, st.employees)), rest)
  }

  /** Employee counts stay below 2^32 as long as the steps go on. */
  predicate Small(s: Step) {
    s.Next? ==> |s.store.employees| < 0x1_0000_0000
  }

  function AddStep(st: Store, body: seq<byte>): (s: Step)
    requires |st.employees| < 0x1_0000_0000
    ensures Small(s) && !s.Stop?
  {
    if body == [] || body[0] != ADD then Next(st, body)
    else
      match TakeAdd(body[1..])
      case None => Undefined
      case Some((e, rest)) =>
        if |st.employees| + 1 == 0x1_0000_0000 then Undefined
        else Save(st.(employees := st.employees + [e]), rest)
  }

  function UpdateStep(st: Store, body: seq<byte>): (s: Step)
    requires |st.employees| < 0x1_0000_0000
    ensures Small(s) && (s.Stop? ==> s.store == st)
  {
    if body == [] || body[0] != UPDATE then Next(st, body)
    else
      match TakeUpdate(body[1..])
      case None => Undefined
      case Some((u, rest)) =>
        var i := FirstNamed(st.employees, u.name);
        if i == |st.employees| then Stop(st, rest)
        else Save(st.(employees := SetHours(st.employees, i, u.hours)), rest)
  }

  function DeleteStep(st: Store, body: seq<byte>): (s: Step)
    requires |st.employees| < 0x1_0000_0000
    ensures Small(s) && (s.Stop? ==> s.store == st)
  {
    if body == [] || body[0] != DELETE then Next(st, body)
    else
      match TakeText(body[1..])
      case None => Undefined
      case Some((name, rest)) =>
        var i := FirstNamed(st.employees, name);
        if i == |st.employees| then Stop(st, rest)
        else Save(st.(employees := SwapRemove(st.employees, i)), rest)
  }

  /** The list option does not move the cursor past its character. */
  function Respond(s: Step): Result {
    match s
    case Undefined => Crashed
    case Fails => Failed
    case Stop(st, rest) => Done(st, NotFound, rest)
    case Next(st, rest) =>
      if rest == [] || rest[0] != LIST then Done(st, Success([]), rest)
      else if RESPONSE_HEADER + |Records(st.employees)| >= 0x1_0000_0000 then Crashed
      else Done(st, Success(Records(st.employees)), rest)
  }

  /** On from the delete option. */
  function FromDelete(s: Step): Result
    requires Small(s)
  {
    if s.Next? then Respond(DeleteStep(s.store, s.rest)) else Respond(s)
  }

  /** On from the update option. */
  function FromUpdate(s: Step): Result
    requires Small(s)
  {
    if s.Next? then FromDelete(UpdateStep(s.store, s.rest)) else Respond(s)
  }

  /** `deserialize_request_options`: the options are tried in the order add, update, delete, list. */
  function Interpret(st: Store, body: seq<byte>): Result
    requires |st.employees| < 0x1_0000_0000
  {
    FromUpdate(AddStep(st, body))
  }

  lemma RespondSmall(s: Step)
    requires Small(s) && (s.Stop? ==> |s.store.employees| < 0x1_0000_0000)
    ensures Respond(s).Done? ==> |Respond(s).store.employees| < 0x1_0000_0000
  {
  }

  /** The employee count never leaves 32 bits. */
  lemma InterpretSmall(st: Store, body: seq<byte>)
    requires |st.employees| < 0x1_0000_0000
    ensures Interpret(st, body).Done? ==> |Interpret(st, body).store.employees| < 0x1_0000_0000
  {
    var s1 := AddStep(st, body);
    if s1.Next? {
      var s2 := UpdateStep(s1.store, s1.rest);
      if s2.Next? {
        RespondSmall(DeleteStep(s2.store, s2.rest));
      }
    }
  }

  /** So does the size of a response. */
  lemma ResponseFits(st: Store, body: seq<byte>)
    requires |st.employees| < 0x1_0000_0000
    ensures var r := Interpret(st, body);
            r.Done? && r.response.Success? ==> RESPONSE_HEADER + |r.response.data| < 0x1_0000_0000
  {
  }

  /** The server goes on after a request that was carried out, unless `send_all` returns -1 for its response. */
  predicate Survived(r: Result) {
    r.Done? && CountAsInt(ResponseLength(r.response)) != -1
  }

  lemma LengthDecides(r: Result)
    requires r.Done? && ResponseLength(r.response) < 0x1_0000_0000
    ensures !Survived(r) <==> ResponseLength(r.response) == 0xffff_ffff
  {
  }

  /** It ends itself after a request that was carried out for exactly one length of the response. */
  lemma FatalLength(st: Store, body: seq<byte>)
    requires |st.employees| < 0x1_0000_0000
    ensures var r := Interpret(st, body); r.Done? ==> (!Survived(r) <==> ResponseLength(r.response) == 0xffff_ffff)
  {
    var r := Interpret(st, body);
    ResponseFits(st, body);
    if r.Done? {
      LengthDecides(r);
    }
  }

  // ---------- what a request means ----------

  datatype Effect = Effect(employees: seq<Employee>, response: Response)

  function Added(es: seq<Employee>, o: Options): (r: seq<Employee>) {
    if o.add.Some? then es + [o.add.value] else es
  }

  predicate UpdateFinds(es: seq<Employee>, o: Options) {
    o.update.Some? ==> FirstNamed(es, o.update.value.name) < |es|
  }

  function Updated(es: seq<Employee>, o: Options): (r: seq<Employee>)
    requires UpdateFinds(es, o)
  {
    if o.update.Some? then SetHours(es, FirstNamed(es, o.update.value.name), o.update.value.hours) else es
  }

  predicate DeleteFinds(es: seq<Employee>, o: Options) {
    o.delete.Some? ==> FirstNamed(es, o.delete.value) < |es|
  }

  function Deleted(es: seq<Employee>, o: Options): (r: seq<Employee>)
    requires DeleteFinds(es, o)
  {
    if o.delete.Some? then SwapRemove(es, FirstNamed(es, o.delete.value)) else es
  }

  function DeleteAndList(es: seq<Employee>, o: Options): (r: Effect) {
    if !DeleteFinds(es, o) then Effect(es, NotFound)
    else Effect(Deleted(es, o), Success(if o.list then Records(Deleted(es, o)) else []))
  }

  /** Add, then update, then delete, then list; the first absent name ends the request,
      and what was done before it stays done. */
  function Meaning(es: seq<Employee>, o: Options): (r: Effect) {
    var es1 := Added(es, o);
    if !UpdateFinds(es1, o) then Effect(es1, NotFound) else DeleteAndList(Updated(es1, o), o)
  }

  /** The first employee of that name gets the hours, nobody else changes; without one nothing changes. */
  lemma UpdateMeans(es: seq<Employee>, u: Update, list: bool, i: nat)
    requires i <= |es| && (i < |es| ==> es[i].name == u.name) && forall j :: 0 <= j < i ==> es[j].name != u.name
    ensures var m := Meaning(es, Options(None, Some(u), None, list));
            if i == |es| then m == Effect(es, NotFound)
            else
              && |m.employees| == |es| && m.employees[i] == Employee(u.name, es[i].address, u.hours)
              && (forall j :: 0 <= j < |es| && j != i ==> m.employees[j] == es[j])
              && m.response == Success(if list then Records(m.employees) else [])
  {
    FirstNamedUnique(es, u.name, i);
  }

  /** The last employee takes the place of the first one of that name; without one nothing changes. */
  lemma DeleteMeans(es: seq<Employee>, name: seq<byte>, list: bool, i: nat)
    requires i <= |es| && (i < |es| ==> es[i].name == name) && forall j :: 0 <= j < i ==> es[j].name != name
    ensures var m := Meaning(es, Options(None, None, Some(name), list));
            if i == |es| then m == Effect(es, NotFound)
            else
              && |m.employees| == |es| - 1 && (i < |es| - 1 ==> m.employees[i] == es[|es| - 1])
              && (forall j :: 0 <= j < |es| - 1 && j != i ==> m.employees[j] == es[j])
              && m.response == Success(if list then Records(m.employees) else [])
  {
    FirstNamedUnique(es, name, i);
  }

  /** A new employee stands at the end. */
  lemma AddMeans(es: seq<Employee>, add: Option<Employee>, list: bool)
    ensures var m := Meaning(es, Options(add, None, None, list));
            && |m.employees| == |es| + (if add.Some? then 1 else 0)
            && (forall j :: 0 <= j < |es| ==> m.employees[j] == es[j])
            && (add.Some? ==> m.employees[|es|] == add.value)
            && m.response == Success(if list then Records(m.employees) else [])
  {
  }

  /** Several options in one request mean what requests with one option each mean, one after another: first the add,
      then the update, then the delete. After a name that is not found nothing more is done; a list comes last. */
  lemma MeaningInSteps(es: seq<Employee>, o: Options)
    ensures var m1 := Meaning(es, Options(o.add, None, None, false));
            var m2 := Meaning(m1.employees, Options(None, o.update, None, false));
            var m3 := Meaning(m2.employees, Options(None, None, o.delete, false));
            Meaning(es, o)
            == if m2.response == NotFound then m2
               else if m3.response == NotFound then m3
               else Effect(m3.employees, Success(if o.list then Records(m3.employees) else []))
  {
  }

  lemma MeaningKeepsValid(es: seq<Employee>, o: Options)
    requires AllValid(es) && ValidOptions(o)
    ensures AllValid(Meaning(es, o).employees)
  {
    var es1 := Added(es, o);
    if UpdateFinds(es1, o) {
      var es2 := Updated(es1, o);
      assert AllValid(es2);
      if DeleteFinds(es2, o) {
        assert AllValid(Deleted(es2, o));
      }
    }
  }

  /** What the interpreter leaves unread of an encoded request. */
  function Unread(es: seq<Employee>, o: Options): (r: seq<byte>)
    requires ValidOptions(o)
  {
    if !UpdateFinds(Added(es, o), o) then DeletePart(o.delete) + ListPart(o.list) else ListPart(o.list)
  }

  // ---------- the bytes mean what the options say ----------

  predicate StartsWith(s: seq<byte>, c: byte) {
    s != [] && s[0] == c
  }

  // The three steps of an encoded request, with the bytes gone.

  function DirectAdd(st: Store, o: Options, rest: seq<byte>): (s: Step)
    requires |st.employees| < 0x1_0000_0000
    ensures s.Next? ==> s.store.employees == Added(st.employees, o) && s.rest == rest
    ensures !s.Stop?
  {
    if o.add.Some? && |st.employees| + 1 == 0x1_0000_0000 then Undefined
    else if o.add.Some? then Save(st.(employees := Added(st.employees, o)), rest) else Next(st, rest)
  }

  function DirectUpdate(st: Store, o: Options, rest: seq<byte>): (s: Step)
    requires |st.employees| < 0x1_0000_0000
    ensures s.Stop? <==> !UpdateFinds(st.employees, o)
    ensures s.Stop? ==> s == Stop(st, rest)
    ensures s.Next? ==> s.store.employees == Updated(st.employees, o) && s.rest == rest
  {
    if o.update == None then Next(st, rest)
    else if !UpdateFinds(st.employees, o) then Stop(st, rest)
    else Save(st.(employees := Updated(st.employees, o)), rest)
  }

  function DirectDelete(st: Store, o: Options, rest: seq<byte>): (s: Step)
    requires |st.employees| < 0x1_0000_0000
    ensures s.Stop? <==> !DeleteFinds(st.employees, o)
    ensures s.Stop? ==> s == Stop(st, rest)
    ensures s.Next? ==> s.store.employees == Deleted(st.employees, o) && s.rest == rest
  {
    if o.delete == None then Next(st, rest)
    else if !DeleteFinds(st.employees, o) then Stop(st, rest)
    else Save(st.(employees := Deleted(st.employees, o)), rest)
  }

  lemma AddStepOfPart(st: Store, o: Options, rest: seq<byte>)
    requires |st.employees| < 0x1_0000_0000 && ValidOptions(o) && !StartsWith(rest, ADD)
    ensures AddStep(st, AddPart(o.add) + rest) == DirectAdd(st, o, rest)
  {
    if o.add.Some? {
      AddRoundTrip(o.add.value, rest);
    } else {
      assert [] + rest == rest;
    }
  }

  lemma UpdateStepOfPart(st: Store, o: Options, rest: seq<byte>)
    requires |st.employees| < 0x1_0000_0000 && ValidOptions(o) && !StartsWith(rest, UPDATE)
    ensures UpdateStep(st, UpdatePart(o.update) + rest) == DirectUpdate(st, o, rest)
  {
    if o.update.Some? {
      UpdateRoundTrip(o.update.value, rest);
    } else {
      assert [] + rest == rest;
    }
  }

  lemma DeleteStepOfPart(st: Store, o: Options, rest: seq<byte>)
    requires |st.employees| < 0x1_0000_0000 && ValidOptions(o) && !StartsWith(rest, DELETE)
    ensures DeleteStep(st, DeletePart(o.delete) + rest) == DirectDelete(st, o, rest)
  {
    if o.delete.Some? {
      DeleteRoundTrip(o.delete.value, rest);
    } else {
      assert [] + rest == rest;
    }
  }

  lemma PartsStart(o: Options)
    requires ValidOptions(o)
    ensures !StartsWith(ListPart(o.list), DELETE)
    ensures !StartsWith(DeletePart(o.delete) + ListPart(o.list), UPDATE)
    ensures !StartsWith(UpdatePart(o.update) + (DeletePart(o.delete) + ListPart(o.list)), ADD)
  {
    if o.delete.Some? {
      DeleteRoundTrip(o.delete.value, ListPart(o.list));
    }
    if o.update.Some? {
      UpdateRoundTrip(o.update.value, DeletePart(o.delete) + ListPart(o.list));
    }
  }

  /** An outcome has the given effect and leaves the given bytes. */
  ghost predicate HasEffect(r: Result, m: Effect, rest: seq<byte>) {
    r.Done? ==> r.store.employees == m.employees && r.response == m.response && r.rest == rest
  }

  lemma RespondEffect(st: Store, o: Options)
    requires |st.employees| < 0x1_0000_0000
    ensures HasEffect(Respond(DirectDelete(st, o, ListPart(o.list))), DeleteAndList(st.employees, o), ListPart(o.list))
  {
  }

  lemma MeaningFromDelete(s: Step, o: Options)
    requires Small(s) && ValidOptions(o) && s.Next? && s.rest == DeletePart(o.delete) + ListPart(o.list)
    ensures HasEffect(FromDelete(s), DeleteAndList(s.store.employees, o), ListPart(o.list))
  {
    PartsStart(o);
    DeleteStepOfPart(s.store, o, ListPart(o.list));
    RespondEffect(s.store, o);
  }

  lemma MeaningFromUpdate(s: Step, o: Options)
    requires Small(s) && ValidOptions(o) && s.Next? && s.rest == UpdatePart(o.update) + (DeletePart(o.delete) + ListPart(o.list))
    ensures var es := s.store.employees;
            HasEffect(FromUpdate(s), if UpdateFinds(es, o) then DeleteAndList(Updated(es, o), o) else Effect(es, NotFound),
                      if UpdateFinds(es, o) then ListPart(o.list) else DeletePart(o.delete) + ListPart(o.list))
  {
    PartsStart(o);
    UpdateStepOfPart(s.store, o, DeletePart(o.delete) + ListPart(o.list));
    var s2 := UpdateStep(s.store, s.rest);
    if s2.Next? {
      MeaningFromDelete(s2, o);
    }
  }

  /** Interpreting the bytes of a request has exactly the meaning of its options. The cursor stops behind
      the last option read; a list option is read without moving past it. */
  lemma RequestMeaning(st: Store, o: Options)
    requires |st.employees| < 0x1_0000_0000 && ValidOptions(o)
    ensures HasEffect(Interpret(st, Encode(o)), Meaning(st.employees, o), Unread(st.employees, o))
  {
    var udl := UpdatePart(o.update) + (DeletePart(o.delete) + ListPart(o.list));
    PartsStart(o);
    AddStepOfPart(st, o, udl);
    var s1 := AddStep(st, Encode(o));
    if s1.Next? {
      MeaningFromUpdate(s1, o);
    }
  }

  /** When no name is missing, the cursor ends at the end of the body exactly if nothing is to be listed. */
  lemma CursorAtEnd(st: Store, o: Options)
    requires |st.employees| < 0x1_0000_0000 && ValidOptions(o)
    ensures var r := Interpret(st, Encode(o)); r.Done? && r.response != NotFound ==> |r.rest| == if o.list then 1 else 0
  {
    RequestMeaning(st, o);
  }

  // ---------- no failure without 4 GiB ----------

  /** Enough room in 32 bits for the response that lists these employees. */
  predicate Roomy(es: seq<Employee>) {
    RESPONSE_HEADER + |Records(es)| < 0x1_0000_0000
  }

  lemma SaveSucceeds(st: Store, rest: seq<byte>)
    requires Roomy(st.employees)
    ensures |st.employees| < 0x1_0000_0000 && Save(st, rest).Next?
  {
  }

  lemma UpdateKeepsRoom(es: seq<Employee>, o: Options)
    requires Roomy(es) && UpdateFinds(es, o)
    ensures Roomy(Updated(es, o))
  {
    if o.update.Some? {
      SizeAfterSetHours(es, FirstNamed(es, o.update.value.name), o.update.value.hours);
    }
  }

  lemma DeleteKeepsRoom(es: seq<Employee>, o: Options)
    requires Roomy(es) && DeleteFinds(es, o)
    ensures Roomy(Deleted(es, o))
  {
    if o.delete.Some? {
      SizeAfterSwapRemove(es, FirstNamed(es, o.delete.value));
    }
  }

  lemma SucceedsFromDelete(s: Step, o: Options)
    requires Small(s) && ValidOptions(o) && s.Next? && s.rest == DeletePart(o.delete) + ListPart(o.list) && Roomy(s.store.employees)
    ensures FromDelete(s).Done?
  {
    PartsStart(o);
    DeleteStepOfPart(s.store, o, ListPart(o.list));
    if DeleteFinds(s.store.employees, o) {
      DeleteKeepsRoom(s.store.employees, o);
      SaveSucceeds(s.store.(employees := Deleted(s.store.employees, o)), ListPart(o.list));
    }
  }

  lemma SucceedsFromUpdate(s: Step, o: Options)
    requires Small(s) && ValidOptions(o) && s.Next? && Roomy(s.store.employees)
    requires s.rest == UpdatePart(o.update) + (DeletePart(o.delete) + ListPart(o.list))
    ensures FromUpdate(s).Done?
  {
    var dl := DeletePart(o.delete) + ListPart(o.list);
    PartsStart(o);
    UpdateStepOfPart(s.store, o, dl);
    if UpdateFinds(s.store.employees, o) {
      UpdateKeepsRoom(s.store.employees, o);
      SaveSucceeds(s.store.(employees := Updated(s.store.employees, o)), dl);
      SucceedsFromDelete(UpdateStep(s.store, s.rest), o);
    }
  }

  /** With room in 32 bits a well-formed request is always carried out. */
  lemma RequestSucceeds(st: Store, o: Options)
    requires ValidOptions(o) && Roomy(st.employees) && Roomy(Added(st.employees, o))
    ensures Interpret(st, Encode(o)).Done?
  {
    var udl := UpdatePart(o.update) + (DeletePart(o.delete) + ListPart(o.list));
    PartsStart(o);
    AddStepOfPart(st, o, udl);
    SaveSucceeds(st.(employees := Added(st.employees, o)), udl);
    SucceedsFromUpdate(AddStep(st, Encode(o)), o);
  }

  /** Room for a response that is shorter than 2^32 - 1 bytes. */
  predicate RoomToAnswer(es: seq<Employee>) {
    RESPONSE_HEADER + |Records(es)| < 0xffff_ffff
  }

  lemma MeantLength(es: seq<Employee>, o: Options)
    ensures ResponseLength(Meaning(es, o).response) <= RESPONSE_HEADER + |Records(Added(es, o))|
  {
    var es1 := Added(es, o);
    if UpdateFinds(es1, o) {
      if o.update.Some? {
        SizeAfterSetHours(es1, FirstNamed(es1, o.update.value.name), o.update.value.hours);
      }
      var es2 := Updated(es1, o);
      if o.delete.Some? && DeleteFinds(es2, o) {
        SizeAfterSwapRemove(es2, FirstNamed(es2, o.delete.value));
      }
    }
  }

  /** With that room a well-formed request is carried out, answered, and survived. */
  lemma RequestSurvived(st: Store, o: Options)
    requires ValidOptions(o) && RoomToAnswer(st.employees) && RoomToAnswer(Added(st.employees, o))
    ensures Survived(Interpret(st, Encode(o)))
  {
    RequestSucceeds(st, o);
    RequestMeaning(st, o);
    MeantLength(st.employees, o);
    LengthDecides(Interpret(st, Encode(o)));
  }

  function Copies(e: Employee, n: nat): (es: seq<Employee>)
    ensures |es| == n && forall i :: 0 <= i < n ==> es[i] == e
  {
    seq(n, _ => e)
  }

  lemma {:induction false} CopiesLength(e: Employee, n: nat)
    requires |Record(e)| == 10
    ensures |Records(Copies(e, n))| == 10 * n
  {
    if n > 0 {
      assert Copies(e, n)[1..] == Copies(e, n - 1);
      CopiesLength(e, n - 1);
    }
  }

  /** Well-formed employees whose list response ends the server. */
  lemma FatalListing(disk: seq<byte>) returns (st: Store, o: Options)
    ensures st.disk == disk && |st.employees| < 0x1_0000_0000 && AllValid(st.employees) && AllFit(st.employees)
    ensures ValidOptions(o) && Interpret(st, Encode(o)).Done? && !Survived(Interpret(st, Encode(o)))
  {
    var small, last := Employee([], [], 0), Employee([65, 65, 65, 65, 65, 65], [], 0);
    var es := Copies(small, 429496727);
    CopiesLength(small, 429496727);
    RecordsSnoc(es, last);
    AllFitElementwise(es + [last]);
    st, o := Store(es + [last], 0, disk), Options(None, None, None, true);
    PartsStart(o);
    assert Encode(o) == [LIST];
  }

  // ---------- memory and disk ----------

  /** The file starts with the image of what is in memory; older images may stick out behind it. */
  ghost predicate OnDisk(st: Store) {
    && |st.employees| < 0x1_0000_0000
    && st.fsize == FileSize(st.employees)
    && Image(st.employees) <= st.disk
  }

  ghost predicate KeepsDisk(s: Step) {
    s.Next? || s.Stop? ==> OnDisk(s.store)
  }

  lemma SaveKeepsDisk(st: Store, rest: seq<byte>)
    requires |st.employees| < 0x1_0000_0000
    ensures KeepsDisk(Save(st, rest))
  {
    if !CountsAsFailure(st.employees) {
      WriteDbLeavesTail(st.disk, st.employees);
    }
  }

  lemma AddKeepsDisk(st: Store, body: seq<byte>)
    requires OnDisk(st)
    ensures KeepsDisk(AddStep(st, body))
  {
    if body != [] && body[0] == ADD && TakeAdd(body[1..]).Some? && |st.employees| + 1 < 0x1_0000_0000 {
      var (e, rest) := TakeAdd(body[1..]).value;
      SaveKeepsDisk(st.(employees := st.employees + [e]), rest);
    }
  }

  lemma UpdateKeepsDisk(st: Store, body: seq<byte>)
    requires OnDisk(st)
    ensures KeepsDisk(UpdateStep(st, body))
  {
    if body != [] && body[0] == UPDATE && TakeUpdate(body[1..]).Some? {
      var (u, rest) := TakeUpdate(body[1..]).value;
      var i := FirstNamed(st.employees, u.name);
      if i < |st.employees| {
        SaveKeepsDisk(st.(employees := SetHours(st.employees, i, u.hours)), rest);
      }
    }
  }

  lemma DeleteKeepsDisk(st: Store, body: seq<byte>)
    requires OnDisk(st)
    ensures KeepsDisk(DeleteStep(st, body))
  {
    if body != [] && body[0] == DELETE && TakeText(body[1..]).Some? {
      var (name, rest) := TakeText(body[1..]).value;
      var i := FirstNamed(st.employees, name);
      if i < |st.employees| {
        SaveKeepsDisk(st.(employees := SwapRemove(st.employees, i)), rest);
      }
    }
  }

  /** Whatever the body says and wherever it stops, memory and disk agree again afterwards. */
  lemma InterpretKeepsDisk(st: Store, body: seq<byte>)
    requires OnDisk(st)
    ensures Interpret(st, body).Done? ==> OnDisk(Interpret(st, body).store)
  {
    AddKeepsDisk(st, body);
    var s1 := AddStep(st, body);
    if s1.Next? {
      UpdateKeepsDisk(s1.store, s1.rest);
      var s2 := UpdateStep(s1.store, s1.rest);
      if s2.Next? {
        DeleteKeepsDisk(s2.store, s2.rest);
      }
    }
  }

  /** Agreement means: the header on disk is the header in memory, and the records read back as the employees
      in memory exactly when no string is longer than 65534 bytes. */
  lemma DiskReadsBack(st: Store)
    requires OnDisk(st) && AllValid(st.employees)
    ensures |st.disk| >= HEADER
    ensures StoredSize(st.disk) == st.fsize && StoredCount(st.disk) == |st.employees|
    ensures Stored(st.disk) == Some(st.employees) <==> AllFit(st.employees)
  {
    var image := Image(st.employees);
    assert st.disk == image + st.disk[|image|..];
    ImageReadsBack(st.employees, st.disk[|image|..]);
  }

  /** What the server finds when it is started on a file: nothing if the header check fails or a record is broken. */
  function Reopened(disk: seq<byte>): (st: Option<Store>)
    ensures st.Some? ==> |st.value.employees| < 0x1_0000_0000 && AllValid(st.value.employees)
  {
    if |disk| >= HEADER && Accepts(disk) && Stored(disk).Some?
    then Some(Store(Stored(disk).value, StoredSize(disk), disk)) else None
  }

  /** A restart finds exactly what was in memory, if and only if every string fits and no older image sticks out. */
  lemma ReopenFinds(st: Store)
    requires OnDisk(st) && AllValid(st.employees)
    ensures Reopened(st.disk) == Some(st) <==>
            AllFit(st.employees) && |st.disk| == |Image(st.employees)| && |st.disk| < 0x1_0000_0000
  {
    DiskReadsBack(st);
    FitsWhenExact(|Image(st.employees)|, |st.disk|);
  }

  /** A server can be started on a new file, and has no employees. */
  lemma NewFileReopens()
    ensures Reopened(Image([])) == Some(Store([], HEADER, Image([])))
  {
    ReopenFinds(Store([], HEADER, Image([])));
  }

  /** What a delete request on its own makes of the store. */
  lemma DeleteAlone(st: Store, name: seq<byte>)
    requires Roomy(st.employees) && Requests.Sendable(name) && FirstNamed(st.employees, name) < |st.employees|
    ensures var r := Interpret(st, Encode(Options(None, None, Some(name), false)));
            var es := SwapRemove(st.employees, FirstNamed(st.employees, name));
            r.Done? && r.store == Store(es, FileSize(es), WriteDb(st.disk, es))
  {
    var o := Options(None, None, Some(name), false);
    RequestSucceeds(st, o);
    DeleteStepOfPart(st, o, []);
    assert Encode(o) == DeletePart(o.delete) + [];
  }

  /** Because nothing shortens the file, a server whose database shrinks cannot be started again on it: after
      deleting an employee the size in the header is less than the size of the file. */
  lemma DeleteSpoilsRestart(st: Store, name: seq<byte>)
    requires OnDisk(st) && Accepts(st.disk) && Roomy(st.employees) && AllValid(st.employees)
    requires Requests.Sendable(name) && FirstNamed(st.employees, name) < |st.employees|
    ensures var r := Interpret(st, Encode(Options(None, None, Some(name), false)));
            r.Done? && |r.store.disk| == |st.disk| && !Accepts(r.store.disk)
  {
    var i := FirstNamed(st.employees, name);
    var es := SwapRemove(st.employees, i);
    DeleteAlone(st, name);
    SizeAfterSwapRemove(st.employees, i);
    SwapRemoveValid(st.employees, i);
    SmallerImage(st.disk, st.employees, es);
  }

  lemma SwapRemoveValid(es: seq<Employee>, i: nat)
    requires i < |es| && AllValid(es)
    ensures AllValid(SwapRemove(es, i))
  {
  }
}
