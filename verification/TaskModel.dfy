/** A long-term task as one record with its sub-projects, and the effect of every mutation on it:
    the specification of the store's methods. */
module TaskModel {
  import opened Wrappers
  import opened Graphs
  import opened DependencyCheck

  datatype Status = Pending | InProgress | WaitingOwner | WaitingExternal | Accepted | Rejected | Skipped
  datatype Stage = Defining | Active | Paused | Done | Cancelled
  datatype Actor = Owner | Twin | System

  /** `text` counts the writes to the title and the other text and link columns; `note` and `until`
      are the wait note and wait time, `evidence` what the last proposal presented. */
  datatype Sub = Sub(ordinal: int, status: Status, dependsOn: seq<Id>,
                     text: nat, note: string, until: Option<string>, evidence: seq<string>)

  /** `pin` is the focus (tasks.current_subtask_id), `delegate` the acceptance switch. */
  datatype Task = Task(stage: Stage, delegate: bool, pin: Option<Id>, subs: map<Id, Sub>)

  /** The store's result codes; Thrown stands for a violated table constraint. */
  datatype Outcome = Ok | NotFound | Validation | Forbidden | Thrown

  /** An updateSubtask call: whether some text, number or well-formed link column changes, whether the
      link is malformed, and the two structural fields. */
  datatype Edit = Edit(textChanges: bool, linkMalformed: bool, ordinal: Option<int>, dependsOn: Option<seq<Id>>)

  datatype Op =
    | Activate
    | Pause
    | Cancel
    | Complete(actor: Actor, evidenceBad: bool)
    | UpdateTask(textChanges: bool, delegateTo: Option<bool>)
    | Add(newId: Id, titled: bool, refs: seq<int>)
    | Update(id: Id, edit: Edit)
    | Begin(id: Id)
    | Wait(id: Id, forOwner: bool, note: string, until: Option<string>, untilBad: bool)
    | Propose(id: Id, evidence: seq<string>, evidenceBad: bool, summary: string)
    | Accept(id: Id, actor: Actor)
    | Skip(id: Id, actor: Actor)
    | Reject(id: Id, hasFeedback: bool)
    | Unblock(id: Id)
    | Move(id: Id, up: bool)

  // ---- Vocabulary ----

  predicate Closed(s: Status) {
    s == Accepted || s == Skipped
  }

  predicate Begun(s: Status) {
    s == InProgress || s == WaitingOwner || s == WaitingExternal || s == Accepted
  }

  predicate Underway(s: Status) {
    s == InProgress || s == WaitingOwner || s == WaitingExternal
  }

  predicate AllClosed(subs: map<Id, Sub>) {
    forall id :: id in subs ==> Closed(subs[id].status)
  }

  predicate DepsAccepted(subs: map<Id, Sub>, deps: seq<Id>) {
    forall d :: d in deps ==> d in subs && subs[d].status == Accepted
  }

  function DepGraph(subs: map<Id, Sub>): Graph {
    map id | id in subs :: subs[id].dependsOn
  }

  /** A row as it is inserted. */
  function NewSub(ordinal: int, dependsOn: seq<Id>): Sub {
    Sub(ordinal, Pending, dependsOn, 0, "", None, [])
  }

  /** Sets the status and empties the wait note and time. */
  function WithStatus(subs: map<Id, Sub>, id: Id, status: Status): map<Id, Sub>
    requires id in subs
  {
    subs[id := AtStatus(subs[id], status)]
  }

  function AtStatus(sub: Sub, status: Status): Sub {
    sub.(status := status, note := "", until := None)
  }

  const NOTE_LIMIT := 4000

  function ProposalNote(summary: string): string {
    "acceptance proposed: " + if |summary| <= NOTE_LIMIT then summary else summary[..NOTE_LIMIT]
  }

  function Unpinned(pin: Option<Id>, id: Id): Option<Id> {
    if pin == Some(id) then None else pin
  }

  /** dependencyLinkedIds: has dependencies or is one. */
  predicate Linked(subs: map<Id, Sub>, id: Id) {
    (id in subs && subs[id].dependsOn != []) || exists a :: a in subs && id in subs[a].dependsOn
  }

  predicate OrdinalTaken(subs: map<Id, Sub>, ordinal: int, mover: Id) {
    exists a :: a in subs && a != mover && subs[a].ordinal == ordinal
  }

  /** m is the greatest ordinal, or 0 if that is greater. */
  ghost predicate IsMaxOrdinal(subs: map<Id, Sub>, m: int) {
    && m >= 0
    && (forall a :: a in subs ==> subs[a].ordinal <= m)
    && (m == 0 || exists a :: a in subs && subs[a].ordinal == m)
  }

  /** b is next to a in ordinal order, before it or after it. */
  ghost predicate IsNeighbor(subs: map<Id, Sub>, a: Id, up: bool, b: Id)
    requires a in subs
  {
    && b in subs
    && var (lo, hi) := if up then (b, a) else (a, b);
       && subs[lo].ordinal < subs[hi].ordinal
       && forall c :: c in subs && c != a && c != b ==> !(subs[lo].ordinal <= subs[c].ordinal <= subs[hi].ordinal)
  }

  /** The ids that a list of ordinals refers to, one by one. */
  ghost predicate Resolves(subs: map<Id, Sub>, refs: seq<int>, deps: seq<Id>) {
    |deps| == |refs| && forall i :: 0 <= i < |refs| ==> deps[i] in subs && subs[deps[i]].ordinal == refs[i]
  }

  ghost predicate HasOrdinal(subs: map<Id, Sub>, ordinal: int) {
    exists a :: a in subs && subs[a].ordinal == ordinal
  }

  ghost predicate Resolvable(subs: map<Id, Sub>, refs: seq<int>) {
    forall r :: r in refs ==> HasOrdinal(subs, r)
  }

  // ---- What every reachable plan satisfies ----

  ghost predicate WellOrdered(subs: map<Id, Sub>) {
    && (forall a :: a in subs ==> subs[a].ordinal >= 1)
    && forall a, b :: a in subs && b in subs && a != b ==> subs[a].ordinal != subs[b].ordinal
  }

  ghost predicate SiblingDeps(subs: map<Id, Sub>) {
    forall a, d :: a in subs && d in subs[a].dependsOn ==> d in subs
  }

  ghost predicate PinUnderway(t: Task) {
    t.pin.Some? ==> t.pin.value in t.subs && Underway(t.subs[t.pin.value].status)
  }

  ghost predicate Valid(t: Task) {
    WellOrdered(t.subs) && SiblingDeps(t.subs) && !HasCycle(DepGraph(t.subs)) && PinUnderway(t)
  }

  // ---- The mutations ----

  ghost function AfterComplete(t: Task, actor: Actor, evidenceBad: bool): (Task, Outcome) {
    if t.stage != Active && t.stage != Paused then (t, Validation)
    else if actor == Twin && !t.delegate then (t, Forbidden)
    else if evidenceBad then (t, Validation)
    else
      (t.(stage := Done, pin := None, subs := RestSkipped(t.subs)), Ok)
  }

  function RestSkipped(subs: map<Id, Sub>): map<Id, Sub> {
    map id | id in subs :: if Closed(subs[id].status) then subs[id] else AtStatus(subs[id], Skipped)
  }

  ghost function AfterUpdateTask(t: Task, textChanges: bool, delegateTo: Option<bool>): (Task, Outcome) {
    var switches := delegateTo.Some? && delegateTo.value != t.delegate;
    if !textChanges && !switches then (t, Validation)
    else (t.(delegate := if switches then delegateTo.value else t.delegate), Ok)
  }

  /** The new sub-project goes last; references by ordinal become ids. */
  ghost function AfterAdd(t: Task, id: Id, titled: bool, refs: seq<int>): (Task, Outcome) {
    if !titled || !Resolvable(t.subs, refs) then (t, Validation)
    else if id in t.subs then (t, Thrown)
    else (t.(subs := t.subs[id := NewSub(NextOrdinal(t.subs), ResolvedDeps(t.subs, refs))]), Ok)
  }

  ghost function ResolvedDeps(subs: map<Id, Sub>, refs: seq<int>): (deps: seq<Id>)
    requires Resolvable(subs, refs)
    ensures Resolves(subs, refs, deps)
  {
    if refs == [] then []
    else
      var init, last := refs[..|refs| - 1], refs[|refs| - 1];
      assert last in refs && forall r :: r in init ==> r in refs;
      assert HasOrdinal(subs, last);
      var a :| a in subs && subs[a].ordinal == last;
      ResolvedDeps(subs, init) + [a]
  }

  ghost function NextOrdinal(subs: map<Id, Sub>): (n: int)
    ensures IsMaxOrdinal(subs, n - 1)
  {
    MaxOrdinalExists(subs);
    var m :| IsMaxOrdinal(subs, m);
    m + 1
  }

  lemma {:induction false} MaxOrdinalExists(subs: map<Id, Sub>)
    ensures exists m :: IsMaxOrdinal(subs, m)
    decreases subs.Keys
  {
    if subs.Keys == {} {
      assert IsMaxOrdinal(subs, 0);
    } else {
      var a :| a in subs;
      var rest := subs - {a};
      MaxOrdinalExists(rest);
      var m :| IsMaxOrdinal(rest, m);
      assert forall x :: x in subs ==> x == a || x in rest;
      assert IsMaxOrdinal(subs, if m < subs[a].ordinal then subs[a].ordinal else m);
    }
  }

  function Written(t: Task, id: Id): Task
    requires id in t.subs
  {
    t.(subs := t.subs[id := t.subs[id].(text := t.subs[id].text + 1)])
  }

  /** The edit asks for another ordinal. */
  predicate Reorders(sub: Sub, e: Edit) {
    e.ordinal.Some? && e.ordinal.value > 0 && e.ordinal.value != sub.ordinal
  }

  predicate OrdinalRefused(subs: map<Id, Sub>, id: Id, e: Edit)
    requires id in subs
  {
    Reorders(subs[id], e) && (OrdinalTaken(subs, e.ordinal.value, id) || Linked(subs, id))
  }

  function OrdinalSet(t: Task, id: Id, e: Edit): Task
    requires id in t.subs
  {
    if Reorders(t.subs[id], e) then t.(subs := t.subs[id := t.subs[id].(ordinal := e.ordinal.value)]) else t
  }

  ghost function DepsSet(t: Task, id: Id, e: Edit, changed: bool): (Task, Outcome)
    requires id in t.subs
  {
    if e.dependsOn.None? then (t, if changed then Ok else Validation)
    else if !DepsAllowed(t.subs, id, e.dependsOn.value) then (t, Validation)
    else (t.(subs := t.subs[id := t.subs[id].(dependsOn := e.dependsOn.value)]), Ok)
  }

  /** Text columns are written first, then the link is checked, then the ordinal is set, then the
      dependencies; what was written stays when a later field is refused. */
  ghost function AfterUpdate(t: Task, id: Id, e: Edit): (Task, Outcome) {
    if id !in t.subs then (t, NotFound)
    else if Closed(t.subs[id].status) then (t, Validation)
    else
      var w := if e.textChanges then Written(t, id) else t;
      if e.linkMalformed || OrdinalRefused(w.subs, id, e) then (w, Validation)
      else DepsSet(OrdinalSet(w, id, e), id, e, e.textChanges || Reorders(w.subs[id], e))
  }

  /** Siblings only, not itself, and no cycle can be reached from the edited node. */
  ghost predicate DepsAllowed(subs: map<Id, Sub>, id: Id, deps: seq<Id>) {
    && (forall d :: d in deps ==> d in subs && d != id)
    && !ReachesCycle(DepGraph(subs)[id := deps], id)
  }

  ghost function AfterBegin(t: Task, id: Id): (Task, Outcome) {
    if id !in t.subs then (t, NotFound)
    else if t.subs[id].status != Pending && t.subs[id].status != InProgress then (t, Validation)
    else if !DepsAccepted(t.subs, t.subs[id].dependsOn) || t.stage != Active then (t, Validation)
    else (t.(subs := WithStatus(t.subs, id, InProgress), pin := Some(id)), Ok)
  }

  ghost function AfterWait(t: Task, id: Id, forOwner: bool, note: string, until: Option<string>, untilBad: bool)
    : (Task, Outcome)
  {
    if id !in t.subs then (t, NotFound)
    else if !Underway(t.subs[id].status) || (until.Some? && untilBad) then (t, Validation)
    else
      var status := if forOwner then WaitingOwner else WaitingExternal;
      (t.(subs := t.subs[id := t.subs[id].(status := status, note := note, until := until)]), Ok)
  }

  ghost function AfterPropose(t: Task, id: Id, evidence: seq<string>, evidenceBad: bool, summary: string)
    : (Task, Outcome)
  {
    if id !in t.subs then (t, NotFound)
    else if t.subs[id].status != InProgress && t.subs[id].status != WaitingExternal then (t, Validation)
    else if evidence == [] || evidenceBad then (t, Validation)
    else
      var proposed := t.subs[id].(status := WaitingOwner, evidence := evidence,
                                  note := ProposalNote(summary), until := None);
      (t.(subs := t.subs[id := proposed]), Ok)
  }

  /** An active task with nothing open left is done. */
  ghost function Concluded(t: Task): Task {
    if t.stage == Active && AllClosed(t.subs) then t.(stage := Done) else t
  }

  ghost function AfterAccept(t: Task, id: Id, actor: Actor): (Task, Outcome) {
    if id !in t.subs then (t, NotFound)
    else if actor == Twin && !t.delegate then (t, Forbidden)
    else if t.subs[id].status != WaitingOwner && t.subs[id].status != InProgress then (t, Validation)
    else (Concluded(t.(subs := WithStatus(t.subs, id, Accepted), pin := Unpinned(t.pin, id))), Ok)
  }

  ghost function AfterSkip(t: Task, id: Id, actor: Actor): (Task, Outcome) {
    if id !in t.subs then (t, NotFound)
    else if Closed(t.subs[id].status) || t.stage == Done || t.stage == Cancelled then (t, Validation)
    else
      var u := t.(subs := WithStatus(t.subs, id, Skipped), pin := Unpinned(t.pin, id));
      if actor == Twin && !t.delegate && Concluded(u).stage == Done then (t, Forbidden)
      else (Concluded(u), Ok)
  }

  /** Leaves the wait note and time as they are. */
  ghost function AfterReject(t: Task, id: Id, hasFeedback: bool): (Task, Outcome) {
    if id !in t.subs then (t, NotFound)
    else if t.subs[id].status != WaitingOwner || !hasFeedback then (t, Validation)
    else (t.(subs := t.subs[id := t.subs[id].(status := InProgress)]), Ok)
  }

  ghost function AfterUnblock(t: Task, id: Id): (Task, Outcome) {
    if id !in t.subs then (t, NotFound)
    else if t.subs[id].status != WaitingOwner && t.subs[id].status != WaitingExternal then (t, Validation)
    else (t.(subs := WithStatus(t.subs, id, InProgress)), Ok)
  }

  /** Swaps ordinals with the neighbour, unless either takes part in a dependency. */
  ghost function AfterMove(t: Task, id: Id, up: bool): (Task, Outcome) {
    if id !in t.subs then (t, NotFound)
    else if Closed(t.subs[id].status) || !exists b :: IsNeighbor(t.subs, id, up, b) then (t, Validation)
    else
      var b :| IsNeighbor(t.subs, id, up, b);
      if Linked(t.subs, id) || Linked(t.subs, b) then (t, Validation)
      else (t.(subs := SwapOrdinals(t.subs, id, b)), Ok)
  }

  function SwapOrdinals(subs: map<Id, Sub>, a: Id, b: Id): map<Id, Sub>
    requires a in subs && b in subs
  {
    subs[a := subs[a].(ordinal := subs[b].ordinal)][b := subs[b].(ordinal := subs[a].ordinal)]
  }

  ghost function Step(t: Task, op: Op): (Task, Outcome) {
    match op
    case Activate => if t.stage != Defining && t.stage != Paused then (t, Validation) else (t.(stage := Active), Ok)
    case Pause => if t.stage != Active then (t, Validation) else (t.(stage := Paused), Ok)
    case Cancel => if t.stage == Done || t.stage == Cancelled then (t, Validation) else (t.(stage := Cancelled), Ok)
    case Complete(actor, evidenceBad) => AfterComplete(t, actor, evidenceBad)
    case UpdateTask(textChanges, delegateTo) => AfterUpdateTask(t, textChanges, delegateTo)
    case Add(newId, titled, refs) => AfterAdd(t, newId, titled, refs)
    case Update(id, edit) => AfterUpdate(t, id, edit)
    case Begin(id) => AfterBegin(t, id)
    case Wait(id, forOwner, note, until, untilBad) => AfterWait(t, id, forOwner, note, until, untilBad)
    case Propose(id, evidence, evidenceBad, summary) => AfterPropose(t, id, evidence, evidenceBad, summary)
    case Accept(id, actor) => AfterAccept(t, id, actor)
    case Skip(id, actor) => AfterSkip(t, id, actor)
    case Reject(id, hasFeedback) => AfterReject(t, id, hasFeedback)
    case Unblock(id) => AfterUnblock(t, id)
    case Move(id, up) => AfterMove(t, id, up)
  }

  /** The task after a sequence of calls. */
  ghost function Run(t: Task, ops: seq<Op>): Task {
    if ops == [] then t else Step(Run(t, ops[..|ops| - 1]), ops[|ops| - 1]).0
  }

  // ---- Creation ----

  /** The drafts of createTask, each a list of 1-based references to other drafts. */
  predicate DraftsAccepted(drafts: seq<seq<int>>) {
    && drafts != []
    && forall i, k :: 0 <= i < |drafts| && 0 <= k < |drafts[i]| ==>
         1 <= drafts[i][k] <= |drafts| && drafts[i][k] != i + 1
  }

  function Referenced(ids: seq<Id>, refs: seq<int>): seq<Id>
    requires forall k :: 0 <= k < |refs| ==> 1 <= refs[k] <= |ids|
  {
    seq(|refs|, k requires 0 <= k < |refs| => ids[refs[k] - 1])
  }

  ghost predicate FreshIds(ids: seq<Id>) {
    forall i, j :: 0 <= i < j < |ids| ==> ids[i] != ids[j]
  }

  ghost function CreatedSubs(drafts: seq<seq<int>>, ids: seq<Id>, n: nat): map<Id, Sub>
    requires DraftsAccepted(drafts) && |ids| == |drafts| && n <= |drafts|
  {
    if n == 0 then map[]
    else CreatedSubs(drafts, ids, n - 1)[ids[n - 1] := NewSub(n, Referenced(ids, drafts[n - 1]))]
  }

  ghost function Created(drafts: seq<seq<int>>, ids: seq<Id>): Task
    requires DraftsAccepted(drafts) && |ids| == |drafts|
  {
    Task(Defining, true, None, CreatedSubs(drafts, ids, |drafts|))
  }
}
