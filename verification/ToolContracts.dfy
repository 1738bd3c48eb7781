/**
  Tool contracts, the registry and the resolver: tool_contracts.py, tool_registry.py and
  intelligence_tool_authority.py.  A call the resolver makes carries exactly the authority its
  descriptor declares.
 */
module ToolContracts {
  import opened Strings
  import opened Wrappers

  datatype PermissionClass = READ | WRITE | EXECUTE | NETWORK | DESTRUCTIVE | SECURITY_SENSITIVE | SELF_UPDATE

  datatype Permission = Permission(class_: PermissionClass, scope: string)

  datatype RetryMode = NONE | SAFE

  datatype ValueType = STRING | INTEGER | NUMBER | BOOLEAN | OBJECT | ARRAY | ANY

  // An argument value, as far as isinstance looks at it.
  datatype Value = Str(text: string) | Int(number: int) | Float(tag: nat) | Bool(flag: bool) | Obj(tag: nat) | Arr(tag: nat) | Nil

  datatype Error =
    | UnknownArguments | MissingArguments | BadType
    | ToolMismatch | BadTimeout | TimeoutTooLong | NoIdempotencyKey | PermissionMismatch
    | BlankArgument | DuplicateArgument | BlankTool | BlankVersion | BlankDomain
    | DuplicateCapability | DuplicateSoftware | DuplicateInput | DuplicateOutput | DuplicatePermission
    | AlreadyRegistered | UnknownTool

  // ---------- argument schemas ----------

  datatype Argument = Argument(name: string, valueType: ValueType, required: bool)

  type Schema = seq<Argument>

  ghost predicate UniqueNames(schema: Schema) {
    forall i, j :: 0 <= i < j < |schema| ==> schema[i].name != schema[j].name
  }

  function Names(schema: Schema): (names: set<string>)
    ensures forall n :: n in names <==> exists i :: 0 <= i < |schema| && schema[i].name == n
  {
    set i | 0 <= i < |schema| :: schema[i].name
  }

  predicate HasType(value: Value, valueType: ValueType) {
    match valueType
    case ANY => true
    case STRING => value.Str?
    case INTEGER => value.Int?
    case NUMBER => value.Int? || value.Float?
    case BOOLEAN => value.Bool?
    case OBJECT => value.Obj?
    case ARRAY => value.Arr?
  }

  // The types an argument may be declared with to accept a value: its own, NUMBER for an integer, ANY.
  lemma TypesExactly(value: Value, t: ValueType)
    ensures HasType(value, t) <==>
              t in match value
                   case Str(_) => {STRING, ANY}
                   case Int(_) => {INTEGER, NUMBER, ANY}
                   case Float(_) => {NUMBER, ANY}
                   case Bool(_) => {BOOLEAN, ANY}
                   case Obj(_) => {OBJECT, ANY}
                   case Arr(_) => {ARRAY, ANY}
                   case Nil => {ANY}
  {
  }

  function TypeOf(schema: Schema, name: string): (t: ValueType)
    requires name in Names(schema)
    ensures exists i :: 0 <= i < |schema| && schema[i].name == name && schema[i].valueType == t
  {
    if schema[|schema| - 1].name == name then schema[|schema| - 1].valueType
    else
      assert name in Names(schema[..|schema| - 1]);
      TypeOf(schema[..|schema| - 1], name)
  }

  function Validate(schema: Schema, supplied: map<string, Value>): Result<(), Error> {
    if exists n <- supplied :: n !in Names(schema) then Failure(UnknownArguments)
    else if exists i :: 0 <= i < |schema| && schema[i].required && schema[i].name !in supplied then Failure(MissingArguments)
    else if exists n <- supplied :: n in Names(schema) && !HasType(supplied[n], TypeOf(schema, n)) then Failure(BadType)
    else Success(())
  }

  // What an accepted set of arguments is, argument by argument of the schema.
  ghost predicate Fits(schema: Schema, supplied: map<string, Value>) {
    && (forall n <- supplied :: exists i :: 0 <= i < |schema| && schema[i].name == n)
    && (forall i :: 0 <= i < |schema| ==>
          if schema[i].name in supplied then HasType(supplied[schema[i].name], schema[i].valueType)
          else !schema[i].required)
  }

  lemma ValidatesExactly(schema: Schema, supplied: map<string, Value>)
    requires UniqueNames(schema)
    ensures Validate(schema, supplied).Success? <==> Fits(schema, supplied)
  {
    forall i | 0 <= i < |schema| && schema[i].name in Names(schema)
      ensures TypeOf(schema, schema[i].name) == schema[i].valueType
    {
    }
    if Fits(schema, supplied) {
      forall n | n in supplied ensures n in Names(schema) && HasType(supplied[n], TypeOf(schema, n)) {
      }
    }
  }

  // ---------- descriptors, calls and invocations ----------

  datatype Descriptor = Descriptor(
    toolId: string, version: string, arguments: Schema, permissions: seq<Permission>, retryMode: RetryMode,
    maxTimeoutMs: int, capabilities: seq<string>, domain: Option<string>, software: seq<string>,
    inputs: seq<string>, outputs: seq<string>)

  ghost predicate Unique<T>(s: seq<T>) {
    forall i, j :: 0 <= i < j < |s| ==> s[i] != s[j]
  }

  ghost predicate WellFormed(d: Descriptor) {
    && Strip(d.toolId) != "" && Strip(d.version) != "" && d.maxTimeoutMs > 0
    && (forall i :: 0 <= i < |d.arguments| ==> Strip(d.arguments[i].name) != "") && UniqueNames(d.arguments)
    && (d.domain.Some? ==> Strip(d.domain.value) != "")
    && Unique(d.capabilities) && Unique(d.software) && Unique(d.inputs) && Unique(d.outputs) && Unique(d.permissions)
  }

  function Entries(s: seq<string>): (entries: set<string>)
    ensures forall x :: x in entries <==> x in s
  {
    set x <- s
  }

  // As many different entries as entries means no entry twice.
  lemma {:induction false} CountsUnique(s: seq<string>)
    ensures |Entries(s)| <= |s|
    ensures |Entries(s)| == |s| <==> Unique(s)
  {
    if s != [] {
      var n := |s| - 1;
      var before, last := s[..n], s[n];
      CountsUnique(before);
      assert forall i :: 0 <= i < n ==> before[i] == s[i];
      assert Entries(s) == Entries(before) + {last};
      assert Unique(s) <==> Unique(before) && last !in before;
    }
  }

  // The checks the construction of a descriptor and its arguments makes, in their order.
  method CheckDescriptor(d: Descriptor) returns (r: Result<(), Error>)
    ensures r.Success? <==> WellFormed(d)
  {
    for k := 0 to |d.arguments|
      invariant forall i :: 0 <= i < k ==> Strip(d.arguments[i].name) != ""
    {
      if Strip(d.arguments[k].name) == "" {
        return Failure(BlankArgument);
      }
    }
    CountsUnique(d.capabilities);
    CountsUnique(d.software);
    CountsUnique(d.inputs);
    CountsUnique(d.outputs);
    hide Entries, UniqueNames, Strip;
    if |Names(d.arguments)| != |d.arguments| {
      Distinct(d.arguments);
      return Failure(DuplicateArgument);
    }
    Distinct(d.arguments);
    if Strip(d.toolId) == "" {
      return Failure(BlankTool);
    }
    if Strip(d.version) == "" {
      return Failure(BlankVersion);
    }
    if d.maxTimeoutMs <= 0 {
      return Failure(BadTimeout);
    }
    if |Entries(d.capabilities)| != |d.capabilities| {
      return Failure(DuplicateCapability);
    }
    if d.domain.Some? && Strip(d.domain.value) == "" {
      return Failure(BlankDomain);
    }
    if |Entries(d.software)| != |d.software| {
      return Failure(DuplicateSoftware);
    }
    if |Entries(d.inputs)| != |d.inputs| {
      return Failure(DuplicateInput);
    }
    if |Entries(d.outputs)| != |d.outputs| {
      return Failure(DuplicateOutput);
    }
    var seen: set<Permission> := {};
    for k := 0 to |d.permissions|
      invariant seen == set i | 0 <= i < k :: d.permissions[i]
      invariant forall i, j :: 0 <= i < j < k ==> d.permissions[i] != d.permissions[j]
    {
      if d.permissions[k] in seen {
        return Failure(DuplicatePermission);
      }
      seen := seen + {d.permissions[k]};
    }
    return Success(());
  }

  // As many different names as arguments means no name twice.
  lemma {:induction false} Distinct(schema: Schema)
    ensures |Names(schema)| <= |schema|
    ensures |Names(schema)| == |schema| <==> UniqueNames(schema)
  {
    if schema != [] {
      var n := |schema| - 1;
      var before, last := schema[..n], schema[n].name;
      Distinct(before);
      LastName(schema);
      hide Names, UniqueNames;
      if last in Names(before) {
        assert Names(schema) == Names(before);
      }
    }
  }

  lemma LastName(schema: Schema)
    requires schema != []
    ensures var before, last := schema[..|schema| - 1], schema[|schema| - 1].name;
            && Names(schema) == Names(before) + {last}
            && (UniqueNames(schema) <==> UniqueNames(before) && last !in Names(before))
  {
    var n := |schema| - 1;
    var before, last := schema[..n], schema[n].name;
    assert forall i :: 0 <= i < n ==> before[i] == schema[i];
    forall name ensures name in Names(schema) <==> name in Names(before) || name == last {
      if name in Names(schema) {
        var i :| 0 <= i < |schema| && schema[i].name == name;
        assert i < n ==> before[i].name == name;
      }
      if name == last {
        assert schema[n].name == name;
      }
    }
  }

  datatype Call = Call(
    schemaVersion: string, requestId: string, taskId: string, tool: string, operation: string,
    arguments: map<string, Value>, permissions: seq<Permission>, timeoutMs: int, retryMode: RetryMode, idempotencyKey: string)

  function PermissionSet(permissions: seq<Permission>): set<Permission> {
    set p <- permissions
  }

  // The checks a ToolInvocation makes of a call against its descriptor.
  function CheckInvocation(call: Call, d: Descriptor): Result<(), Error> {
    if call.tool != d.toolId then Failure(ToolMismatch)
    else if call.timeoutMs <= 0 then Failure(BadTimeout)
    else if call.timeoutMs > d.maxTimeoutMs then Failure(TimeoutTooLong)
    else if Strip(call.idempotencyKey) == "" then Failure(NoIdempotencyKey)
    else if Validate(d.arguments, call.arguments).Failure? then Validate(d.arguments, call.arguments)
    else if PermissionSet(d.permissions) != PermissionSet(call.permissions) then Failure(PermissionMismatch)
    else Success(())
  }

  // An accepted invocation stays within its descriptor: the same permissions, no longer a timeout,
  // and arguments that fit.
  lemma InvocationStaysWithin(call: Call, d: Descriptor)
    requires UniqueNames(d.arguments)
    ensures CheckInvocation(call, d).Success? <==>
              && call.tool == d.toolId && 0 < call.timeoutMs <= d.maxTimeoutMs && Strip(call.idempotencyKey) != ""
              && Fits(d.arguments, call.arguments)
              && forall p :: p in call.permissions <==> p in d.permissions
  {
    ValidatesExactly(d.arguments, call.arguments);
    assert PermissionSet(d.permissions) == PermissionSet(call.permissions) <==>
           forall p :: p in call.permissions <==> p in d.permissions by {
      assert forall p :: p in PermissionSet(d.permissions) <==> p in d.permissions;
      assert forall p :: p in PermissionSet(call.permissions) <==> p in call.permissions;
    }
  }

  // ---------- the registry ----------

  type Tools = map<string, Descriptor>

  ghost predicate Consistent(tools: Tools) {
    forall id <- tools :: tools[id].toolId == id && WellFormed(tools[id])
  }

  class ToolRegistry {
    var tools: Tools

    ghost predicate Valid()
      reads this
    {
      Consistent(tools)
    }

    constructor ()
      ensures Valid() && tools == map[]
    {
      tools := map[];
    }

    method Register(d: Descriptor, replace: bool) returns (r: Result<(), Error>)
      requires Valid() && WellFormed(d)
      modifies this
      ensures Valid()
      ensures r.Success? <==> replace || d.toolId !in old(tools)
      ensures tools == if r.Success? then old(tools)[d.toolId := d] else old(tools)
    {
      if d.toolId in tools && !replace {
        return Failure(AlreadyRegistered);
      }
      tools := tools[d.toolId := d];
      return Success(());
    }

    method Unregister(id: string) returns (r: Result<(), Error>)
      requires Valid()
      modifies this
      ensures Valid()
      ensures r.Success? <==> id in old(tools)
      ensures tools == old(tools) - {id}
    {
      if id !in tools {
        assert tools - {id} == tools;
        return Failure(UnknownTool);
      }
      tools := tools - {id};
      return Success(());
    }
  }

  // ---------- the resolver ----------

  datatype Proposal = Proposal(
    requestId: string, taskId: string, tool: string, operation: string, arguments: map<string, Value>)

  // A required argument named "operation" that the model left out is filled from the proposal.
  function Canonical(d: Descriptor, proposal: Proposal): map<string, Value> {
    if (exists i :: 0 <= i < |d.arguments| && d.arguments[i].name == "operation" && d.arguments[i].required)
       && "operation" !in proposal.arguments
    then proposal.arguments["operation" := Str(proposal.operation)]
    else proposal.arguments
  }

  function MakeCall(d: Descriptor, proposal: Proposal, key: string): Call {
    Call("1.0", proposal.requestId, proposal.taskId, d.toolId, proposal.operation, Canonical(d, proposal), d.permissions,
         d.maxTimeoutMs, d.retryMode, key)
  }

  // `key` is the fresh identifier the call is given.
  function Resolve(tools: Tools, proposal: Proposal, key: string): Result<Call, Error> {
    if proposal.tool !in tools then Failure(UnknownTool)
    else
      var d := tools[proposal.tool];
      var valid := Validate(d.arguments, Canonical(d, proposal));
      if valid.Failure? then Failure(valid.error)
      else
        var call := MakeCall(d, proposal, key);
        var checked := CheckInvocation(call, d);
        if checked.Failure? then Failure(checked.error) else Success(call)
  }

  ghost predicate NeedsOperation(d: Descriptor) {
    exists i :: 0 <= i < |d.arguments| && d.arguments[i].name == "operation" && d.arguments[i].required
  }

  // The arguments proposed, each unchanged, and nothing else but an operation the descriptor needs.
  ghost predicate Completes(d: Descriptor, proposal: Proposal, arguments: map<string, Value>) {
    && (forall n <- proposal.arguments :: n in arguments && arguments[n] == proposal.arguments[n])
    && (forall n <- arguments :: n in proposal.arguments ||
          (n == "operation" && NeedsOperation(d) && arguments[n] == Str(proposal.operation)))
    && (NeedsOperation(d) ==> "operation" in arguments)
  }

  lemma CompletesExactly(d: Descriptor, proposal: Proposal, arguments: map<string, Value>)
    ensures Completes(d, proposal, arguments) <==> arguments == Canonical(d, proposal)
  {
    if Completes(d, proposal, arguments) {
      assert arguments.Keys == Canonical(d, proposal).Keys;
    }
  }

  // A proposal resolves exactly when its tool is registered and its completed arguments fit; the
  // call then carries what was proposed, and takes all its authority, its timeout and its retry mode
  // from the descriptor.
  lemma ResolvesExactlyWhen(tools: Tools, proposal: Proposal, key: string)
    requires Consistent(tools) && Strip(key) != ""
    ensures var r := Resolve(tools, proposal, key);
            && (r.Success? <==>
                  proposal.tool in tools && Fits(tools[proposal.tool].arguments, Canonical(tools[proposal.tool], proposal)))
            && (r.Success? ==>
                  var (call, d) := (r.value, tools[proposal.tool]);
                  && call.tool == proposal.tool && call.permissions == d.permissions && call.timeoutMs == d.maxTimeoutMs
                  && call.retryMode == d.retryMode && CheckInvocation(call, d).Success?
                  && call.schemaVersion == "1.0" && call.requestId == proposal.requestId && call.taskId == proposal.taskId
                  && call.operation == proposal.operation && call.idempotencyKey == key
                  && Completes(d, proposal, call.arguments))
  {
    if proposal.tool in tools {
      var d := tools[proposal.tool];
      ValidatesExactly(d.arguments, Canonical(d, proposal));
      CompletesExactly(d, proposal, Canonical(d, proposal));
      hide Completes;
      hide Validate, Fits, Canonical;
    }
  }
}
