/** SBus datagrams: building, encoding and decoding them, and the roles of the descriptors they carry. */
module Datagrams {
  import opened Basics

  /** JSON values as far as datagrams use them. */
  datatype Json =
    | JString(text: string)
    | JNumber(number: int)
    | JArray(items: seq<Json>)
    | JObject(members: map<string, Json>)

  datatype FdType = ServiceOut | InputObject | OutputObject | OutputObjectMetadata | OutputObjectAndMetadata | Logger

  const EXECUTE := "SBUS_CMD_EXECUTE"

  function TypeName(t: FdType): string {
    match t
    case ServiceOut => "SBUS_FD_SERVICE_OUT"
    case InputObject => "SBUS_FD_INPUT_OBJECT"
    case OutputObject => "SBUS_FD_OUTPUT_OBJECT"
    case OutputObjectMetadata => "SBUS_FD_OUTPUT_OBJECT_METADATA"
    case OutputObjectAndMetadata => "SBUS_FD_OUTPUT_OBJECT_AND_METADATA"
    case Logger => "SBUS_FD_LOGGER"
  }

  function TypeOf(name: string): Option<FdType> {
    if name == TypeName(ServiceOut) then Some(ServiceOut)
    else if name == TypeName(InputObject) then Some(InputObject)
    else if name == TypeName(OutputObject) then Some(OutputObject)
    else if name == TypeName(OutputObjectMetadata) then Some(OutputObjectMetadata)
    else if name == TypeName(OutputObjectAndMetadata) then Some(OutputObjectAndMetadata)
    else if name == TypeName(Logger) then Some(Logger)
    else None
  }

  type Metadata = map<string, string>

  datatype FileDescriptor = FileDescriptor(fdtype: FdType, fileno: int, storlets: Metadata, storage: Metadata)

  datatype Datagram = Datagram(command: string, sfds: seq<FileDescriptor>,
                               params: Option<map<string, Json>>, taskId: Option<string>)

  // ---- Which datagrams are accepted ----

  function Types(sfds: seq<FileDescriptor>): (ts: seq<FdType>)
    ensures |ts| == |sfds| && forall i :: 0 <= i < |ts| ==> ts[i] == sfds[i].fdtype
  {
    seq(|sfds|, i requires 0 <= i < |sfds| => sfds[i].fdtype)
  }

  const EXECUTE_TYPES := [ServiceOut, InputObject, OutputObject, OutputObjectMetadata, Logger]

  function Required(command: string): seq<FdType> {
    if command == EXECUTE then EXECUTE_TYPES else [ServiceOut]
  }

  /** The descriptors of a datagram start with the required ones; an execute datagram may only add inputs. */
  predicate Accepted(command: string, sfds: seq<FileDescriptor>) {
    Required(command) <= Types(sfds) &&
    (command == EXECUTE ==> forall i :: 5 <= i < |sfds| ==> sfds[i].fdtype == InputObject)
  }

  /** build_datagram */
  function Build(command: string, sfds: seq<FileDescriptor>, params: Option<map<string, Json>>,
                 taskId: Option<string>): Result<Datagram> {
    if Accepted(command, sfds) then Ok(Datagram(command, sfds, params, taskId)) else Raised
  }

  /** Which datagrams are accepted, position by position. */
  lemma AcceptedExactly(command: string, sfds: seq<FileDescriptor>)
    ensures command == "SBUS_CMD_EXECUTE" ==>
              (Accepted(command, sfds) <==>
               && |sfds| >= 5 && sfds[0].fdtype == ServiceOut && sfds[1].fdtype == InputObject
               && sfds[2].fdtype == OutputObject && sfds[3].fdtype == OutputObjectMetadata && sfds[4].fdtype == Logger
               && forall i :: 5 <= i < |sfds| ==> sfds[i].fdtype == InputObject)
    ensures command != "SBUS_CMD_EXECUTE" ==>
              (Accepted(command, sfds) <==> |sfds| >= 1 && sfds[0].fdtype == ServiceOut)
  {
    var ts := Types(sfds);
    if |sfds| >= 5 {
      assert ts[0] == sfds[0].fdtype && ts[1] == sfds[1].fdtype && ts[2] == sfds[2].fdtype;
      assert ts[3] == sfds[3].fdtype && ts[4] == sfds[4].fdtype;
      assert EXECUTE_TYPES <= ts <==> ts[..5] == EXECUTE_TYPES;
    }
  }

  // ---- To JSON and back ----

  function ToJson(m: Metadata): map<string, Json> {
    map k | k in m :: JString(m[k])
  }

  function MetadataJson(fd: FileDescriptor): Json {
    JObject(map["storlets" := JObject(ToJson(fd.storlets["type" := TypeName(fd.fdtype)])),
                "storage" := JObject(ToJson(fd.storage))])
  }

  function MetadataJsons(sfds: seq<FileDescriptor>): (js: seq<Json>)
    ensures |js| == |sfds| && forall i :: 0 <= i < |js| ==> js[i] == MetadataJson(sfds[i])
  {
    seq(|sfds|, i requires 0 <= i < |sfds| => MetadataJson(sfds[i]))
  }

  function CommandJson(d: Datagram): Json {
    var command := map["command" := JString(d.command)];
    var withParams :=
      if d.params.Some? && d.params.value != map[] then command["params" := JObject(d.params.value)] else command;
    JObject(
      if d.taskId.Some? && d.taskId.value != "" then withParams["task_id" := JString(d.taskId.value)] else withParams)
  }

  /** A JSON object whose values are all strings. */
  function FromJson(j: Json): Result<Metadata> {
    if j.JObject? && forall k :: k in j.members ==> j.members[k].JString?
    then Ok(map k | k in j.members :: j.members[k].text)
    else Raised
  }

  /** from_fileno_and_metadata_dict */
  function DescriptorFromJson(fileno: int, j: Json): Result<FileDescriptor> {
    if !j.JObject? || "storlets" !in j.members || "storage" !in j.members then Raised
    else
      var storlets, storage := FromJson(j.members["storlets"]), FromJson(j.members["storage"]);
      if storlets.Raised? || storage.Raised? || "type" !in storlets.value then Raised
      else
        var fdtype := TypeOf(storlets.value["type"]);
        if fdtype.None? then Raised
        else Ok(FileDescriptor(fdtype.value, fileno, storlets.value - {"type"}, storage.value))
  }

  function DescriptorsFromJson(filenos: seq<int>, js: seq<Json>): Result<seq<FileDescriptor>>
    requires |filenos| == |js|
  {
    if |js| == 0 then Ok([])
    else
      var first := DescriptorFromJson(filenos[0], js[0]);
      var rest := DescriptorsFromJson(filenos[1..], js[1..]);
      if first.Raised? || rest.Raised? then Raised else Ok([first.value] + rest.value)
  }

  /** build_datagram_from_raw_message, after the JSON texts were parsed */
  function Decode(filenos: seq<int>, metadata: Json, command: Json): Result<Datagram> {
    if !metadata.JArray? || !command.JObject? || |filenos| != |metadata.items| then Raised
    else
      var sfds := DescriptorsFromJson(filenos, metadata.items);
      var c := command.members;
      if sfds.Raised? || "command" !in c || !c["command"].JString? then Raised
      else
        var params := if "params" in c && c["params"].JObject? then Some(c["params"].members) else None;
        var taskId := if "task_id" in c && c["task_id"].JString? then Some(c["task_id"].text) else None;
        Build(c["command"].text, sfds.value, params, taskId)
  }

  // ---- What a trip over the bus makes of a datagram ----

  /** A descriptor under the number it has on the receiving side; a user key named "type" does not survive. */
  function Delivered(fd: FileDescriptor, fileno: int): FileDescriptor {
    FileDescriptor(fd.fdtype, fileno, fd.storlets - {"type"}, fd.storage)
  }

  function DeliveredAll(sfds: seq<FileDescriptor>, filenos: seq<int>): (r: seq<FileDescriptor>)
    requires |sfds| == |filenos|
    ensures |r| == |sfds| && forall i :: 0 <= i < |r| ==> r[i] == Delivered(sfds[i], filenos[i])
  {
    seq(|sfds|, i requires 0 <= i < |sfds| => Delivered(sfds[i], filenos[i]))
  }

  lemma TypeRoundTrip(t: FdType)
    ensures TypeOf(TypeName(t)) == Some(t)
  {
  }

  /** The names of the descriptor types as they are written in a message; there are no others. */
  lemma TypeNames(name: string)
    ensures TypeOf("SBUS_FD_SERVICE_OUT") == Some(ServiceOut) && TypeOf("SBUS_FD_INPUT_OBJECT") == Some(InputObject)
    ensures TypeOf("SBUS_FD_OUTPUT_OBJECT") == Some(OutputObject) && TypeOf("SBUS_FD_LOGGER") == Some(Logger)
    ensures TypeOf("SBUS_FD_OUTPUT_OBJECT_METADATA") == Some(OutputObjectMetadata)
    ensures TypeOf("SBUS_FD_OUTPUT_OBJECT_AND_METADATA") == Some(OutputObjectAndMetadata)
    ensures TypeOf(name).Some? ==> TypeName(TypeOf(name).value) == name
  {
    TypeRoundTrip(ServiceOut);
    TypeRoundTrip(InputObject);
    TypeRoundTrip(OutputObject);
    TypeRoundTrip(OutputObjectMetadata);
    TypeRoundTrip(OutputObjectAndMetadata);
    TypeRoundTrip(Logger);
    KnownName(name);
    hide TypeOf;
  }

  lemma KnownName(name: string)
    ensures TypeOf(name).Some? ==> TypeName(TypeOf(name).value) == name
  {
    hide TypeName;
  }

  /** One descriptor as it is written, with its keys spelled out. */
  lemma DescriptorIsRead(fileno: int, name: string, t: FdType, storlets: Metadata, storage: Metadata)
    requires TypeOf(name) == Some(t) && "type" !in storlets
    ensures DescriptorFromJson(fileno, JObject(map["storlets" := JObject(ToJson(storlets["type" := name])),
                                                   "storage" := JObject(ToJson(storage))])) ==
            Ok(FileDescriptor(t, fileno, storlets, storage))
  {
    var tagged := storlets["type" := name];
    MetadataRoundTrip(tagged);
    MetadataRoundTrip(storage);
    assert tagged - {"type"} == storlets;
    hide FromJson, ToJson, TypeOf;
  }

  /** A command as it is written, with its keys spelled out, for a descriptor list that suits it. */
  lemma CommandIsRead(command: string, filenos: seq<int>, mds: seq<Json>, sfds: seq<FileDescriptor>,
                      params: map<string, Json>, taskId: string)
    requires |filenos| == |mds| && DescriptorsFromJson(filenos, mds) == Ok(sfds) && Accepted(command, sfds)
    ensures var name := map["command" := JString(command)];
            && Decode(filenos, JArray(mds), JObject(name)) == Ok(Datagram(command, sfds, None, None))
            && Decode(filenos, JArray(mds), JObject(name["params" := JObject(params)]["task_id" := JString(taskId)])) ==
               Ok(Datagram(command, sfds, Some(params), Some(taskId)))
  {
    hide DescriptorsFromJson, Accepted;
  }

  /** A message with another number of descriptors than it describes, or whose descriptors do not suit the
      command, is refused. */
  lemma MisfitsAreRefused(filenos: seq<int>, metadata: Json, command: Json)
    ensures metadata.JArray? && |filenos| != |metadata.items| ==> Decode(filenos, metadata, command) == Raised
    ensures Decode(filenos, metadata, command).Ok? ==>
              var d := Decode(filenos, metadata, command).value;
              Accepted(d.command, d.sfds)
  {
    hide DescriptorsFromJson, Accepted;
  }

  lemma MetadataRoundTrip(m: Metadata)
    ensures FromJson(JObject(ToJson(m))) == Ok(m)
  {
    var members := ToJson(m);
    assert (map k | k in members :: members[k].text) == m;
  }

  lemma DescriptorRoundTrip(fd: FileDescriptor, fileno: int)
    ensures DescriptorFromJson(fileno, MetadataJson(fd)) == Ok(Delivered(fd, fileno))
  {
    hide FromJson, ToJson, TypeName, TypeOf;
    TypeRoundTrip(fd.fdtype);
    var tagged := fd.storlets["type" := TypeName(fd.fdtype)];
    MetadataRoundTrip(tagged);
    MetadataRoundTrip(fd.storage);
    assert tagged - {"type"} == fd.storlets - {"type"};
  }

  lemma {:induction false} DescriptorsRoundTrip(sfds: seq<FileDescriptor>, filenos: seq<int>)
    requires |sfds| == |filenos|
    ensures DescriptorsFromJson(filenos, MetadataJsons(sfds)) == Ok(DeliveredAll(sfds, filenos))
    decreases |sfds|
  {
    hide DescriptorFromJson, MetadataJson, Delivered;
    if |sfds| > 0 {
      DescriptorRoundTrip(sfds[0], filenos[0]);
      DescriptorsRoundTrip(sfds[1..], filenos[1..]);
      assert MetadataJsons(sfds)[1..] == MetadataJsons(sfds[1..]);
      assert [Delivered(sfds[0], filenos[0])] + DeliveredAll(sfds[1..], filenos[1..]) == DeliveredAll(sfds, filenos);
    }
  }

  /** Encoding an accepted datagram and decoding it under the receiver's descriptor numbers gives the same
      command, parameters and metadata; empty parameters and an empty task id come back absent. */
  lemma DatagramRoundTrip(d: Datagram, filenos: seq<int>)
    requires Accepted(d.command, d.sfds) && |filenos| == |d.sfds|
    ensures Decode(filenos, JArray(MetadataJsons(d.sfds)), CommandJson(d)) ==
            Ok(Datagram(d.command, DeliveredAll(d.sfds, filenos),
                        if d.params.Some? && d.params.value == map[] then None else d.params,
                        if d.taskId == Some("") then None else d.taskId))
  {
    hide DescriptorsFromJson, MetadataJson, Accepted;
    DescriptorsRoundTrip(d.sfds, filenos);
    DeliveredIsAccepted(d.command, d.sfds, filenos);
  }

  lemma DeliveredIsAccepted(command: string, sfds: seq<FileDescriptor>, filenos: seq<int>)
    requires Accepted(command, sfds) && |filenos| == |sfds|
    ensures Accepted(command, DeliveredAll(sfds, filenos))
  {
    assert Types(DeliveredAll(sfds, filenos)) == Types(sfds);
  }
}
