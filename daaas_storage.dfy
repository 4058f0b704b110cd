/** The notebook storage helpers: the MinIO instances found in the vault,
    one client per instance bound under a sanitised name, and the staging of
    a streamed S3 Select response through a temporary file. */
module DaaasStorage {
  import opened Wrappers
  import opened Seqs
  import opened ObjectStore

  // ---------------------------------------------------------------------
  // Instances and their clients
  // ---------------------------------------------------------------------

  /** Whether a directory entry of the secrets directory names an instance:
      the `.json` files are credential documents, not instances. */
  predicate IsInstanceEntry(file: string) {
    !EndsWith(file, ".json")
  }

  /** `get_instances`: the entries of the secrets directory, in listing
      order, whose names do not end in `.json`. */
  function GetInstances(listing: seq<string>): (instances: seq<string>)
    ensures forall n :: n in instances <==> n in listing && !EndsWith(n, ".json")
  {
    Filter(listing, IsInstanceEntry)
  }

  /** The listing order is kept: two runs of a listing give their instances
      one after the other, and a listing with no `.json` entry is returned as
      it is. */
  lemma GetInstancesKeepsOrder(xs: seq<string>, ys: seq<string>)
    ensures GetInstances(xs + ys) == GetInstances(xs) + GetInstances(ys)
    ensures (forall i :: 0 <= i < |xs| ==> !EndsWith(xs[i], ".json")) ==> GetInstances(xs) == xs
  {
    FilterAppend(xs, ys, IsInstanceEntry);
    if forall i :: 0 <= i < |xs| ==> !EndsWith(xs[i], ".json") {
      FilterKeepsAll(xs, IsInstanceEntry);
    }
  }

  /** The shell file `get_minio_client` sources for `instance`. */
  function VaultFile(instance: string): string {
    "/vault/secrets/" + instance
  }

  const UrlVar := "MINIO_URL"
  const AccessKeyVar := "MINIO_ACCESS_KEY"
  const SecretKeyVar := "MINIO_SECRET_KEY"

  /** The variables `get_minio_client` reads, in the order it reads them. */
  const MinioVars := [UrlVar, AccessKeyVar, SecretKeyVar]

  /** The client configuration for `instance`, where `sourced(file, var)` is
      the value the shell prints for `var` after sourcing `file`. */
  function ClientFor(instance: string, sourced: (string, string) -> string): ClientConfig {
    var file := VaultFile(instance);
    ConfigFor(sourced(file, UrlVar), sourced(file, AccessKeyVar), sourced(file, SecretKeyVar))
  }

  /** Whether the client library accepts the configuration built for
      `instance`. */
  predicate Accepted(accepts: ClientConfig -> bool, instance: string,
                     sourced: (string, string) -> string) {
    accepts(ClientFor(instance, sourced))
  }

  /** Index of the first instance in `names` whose client is refused, or
      `|names|` when every client is accepted. */
  function FirstRejected(names: seq<string>, sourced: (string, string) -> string,
                         accepts: ClientConfig -> bool): (k: nat)
    ensures k <= |names|
    ensures forall i :: 0 <= i < k ==> Accepted(accepts, names[i], sourced)
    ensures k < |names| ==> !Accepted(accepts, names[k], sourced)
  {
    if names == [] || !Accepted(accepts, names[0], sourced) then 0
    else 1 + FirstRejected(names[1..], sourced, accepts)
  }

  /** Why no client was built. */
  datatype ClientError = ClientRejected(instance: string)

  /** `get_minio_client`: reads the three variables one after the other into
      a dictionary, then builds the client. TLS is on exactly when the URL
      starts with `https`. `accepts` says whether the client library takes a
      configuration. */
  method GetMinioClient(instance: string, sourced: (string, string) -> string,
                        accepts: ClientConfig -> bool)
    returns (r: Result<ClientConfig, ClientError>)
    ensures r.Success? <==> Accepted(accepts, instance, sourced)
    ensures r.Success? ==> r.value == ClientFor(instance, sourced)
    ensures r.Success? ==> (r.value.secure <==> StartsWith(sourced(VaultFile(instance), UrlVar), "https"))
    ensures r.Success? ==> r.value.endpoint == sourced(VaultFile(instance), UrlVar)
    ensures r.Failure? ==> r.error == ClientRejected(instance)
  {
    var vault := "/vault/secrets/" + instance;
    var d: map<string, string> := map[];
    var i := 0;
    while i < |MinioVars|
      invariant 0 <= i <= |MinioVars|
      invariant d.Keys == set j | 0 <= j < i :: MinioVars[j]
      invariant forall j :: 0 <= j < i ==> d[MinioVars[j]] == sourced(vault, MinioVars[j])
    {
      d := d[MinioVars[i] := sourced(vault, MinioVars[i])];
      i := i + 1;
    }
    assert MinioVars[0] == UrlVar && MinioVars[1] == AccessKeyVar && MinioVars[2] == SecretKeyVar;
    var secure := StartsWith(d[UrlVar], "https");
    var client := ClientConfig(d[UrlVar], d[AccessKeyVar], d[SecretKeyVar], secure, Region);
    if !accepts(client) {
      return Failure(ClientRejected(instance));
    }
    return Success(client);
  }

  /** An instance name as an attribute name: every `-` becomes `_`. */
  function Sanitize(name: string): (r: string)
    ensures |r| == |name| && '-' !in r
    ensures forall i :: 0 <= i < |name| && name[i] != '-' ==> r[i] == name[i]
    ensures forall i :: 0 <= i < |name| && name[i] == '-' ==> r[i] == '_'
  {
    if name == [] then []
    else [if name[0] == '-' then '_' else name[0]] + Sanitize(name[1..])
  }

  /** Sanitising a sanitised name changes nothing. */
  lemma SanitizeIdempotent(name: string)
    ensures Sanitize(Sanitize(name)) == Sanitize(name)
  {
    var once := Sanitize(name);
    assert forall i :: 0 <= i < |once| ==> Sanitize(once)[i] == once[i];
  }

  /** Two instances can share an attribute: `a-b` and `a_b` both become
      `a_b`. */
  lemma SanitizeCollides(dashed: string, underscored: string)
    requires dashed == "a-b" && underscored == "a_b"
    ensures dashed != underscored && Sanitize(dashed) == Sanitize(underscored)
  {
    assert Sanitize(dashed)[1] == '_';
    assert Sanitize(underscored)[1] == '_';
    assert Sanitize(dashed)[0] == 'a' && Sanitize(dashed)[2] == 'b';
    assert Sanitize(underscored)[0] == 'a' && Sanitize(underscored)[2] == 'b';
  }

  /** The attributes after adding `names` one after the other to `attrs`:
      each name's client is bound under its sanitised name, replacing what
      was bound there before. */
  function Bindings(attrs: map<string, ClientConfig>, names: seq<string>,
                    sourced: (string, string) -> string): (r: map<string, ClientConfig>)
    ensures attrs.Keys <= r.Keys
    ensures |r| <= |attrs| + |names|
  {
    if names == [] then attrs
    else
      var last := names[|names| - 1];
      Bindings(attrs, names[..|names| - 1], sourced)[Sanitize(last) := ClientFor(last, sourced)]
  }

  /** Adding one more name binds its client on top of the earlier bindings. */
  lemma BindingsSnoc(attrs: map<string, ClientConfig>, names: seq<string>, name: string,
                     sourced: (string, string) -> string)
    ensures Bindings(attrs, names + [name], sourced)
            == Bindings(attrs, names, sourced)[Sanitize(name) := ClientFor(name, sourced)]
  {
    assert (names + [name])[..|names|] == names;
  }

  /** An attribute is bound after adding `names` exactly when it was bound
      before or some added name sanitises to it. */
  lemma {:induction false} BindingsKeys(attrs: map<string, ClientConfig>, names: seq<string>,
                                        sourced: (string, string) -> string, key: string)
    ensures key in Bindings(attrs, names, sourced)
            <==> key in attrs || exists i :: 0 <= i < |names| && Sanitize(names[i]) == key
  {
    if names != [] {
      var init := names[..|names| - 1];
      BindingsKeys(attrs, init, sourced, key);
      assert forall i :: 0 <= i < |init| ==> init[i] == names[i];
      if exists i :: 0 <= i < |names| && Sanitize(names[i]) == key {
        var i :| 0 <= i < |names| && Sanitize(names[i]) == key;
        if i < |init| {
          assert Sanitize(init[i]) == key;
        }
      }
    }
  }

  /** Of several names that sanitise to the same attribute, the last one
      added wins. */
  lemma {:induction false} BindingsLastWins(attrs: map<string, ClientConfig>, names: seq<string>,
                                            sourced: (string, string) -> string, i: int)
    requires 0 <= i < |names|
    requires forall j :: i < j < |names| ==> Sanitize(names[j]) != Sanitize(names[i])
    ensures Sanitize(names[i]) in Bindings(attrs, names, sourced)
    ensures Bindings(attrs, names, sourced)[Sanitize(names[i])] == ClientFor(names[i], sourced)
  {
    var init := names[..|names| - 1];
    if i < |names| - 1 {
      forall j | i < j < |init| ensures Sanitize(init[j]) != Sanitize(init[i]) {
        assert init[j] == names[j] && init[i] == names[i];
      }
      BindingsLastWins(attrs, init, sourced, i);
      assert init[i] == names[i];
    }
  }

  /** Attributes no added name sanitises to keep their binding. */
  lemma {:induction false} BindingsFrame(attrs: map<string, ClientConfig>, names: seq<string>,
                                         sourced: (string, string) -> string, key: string)
    requires key in attrs
    requires forall i :: 0 <= i < |names| ==> Sanitize(names[i]) != key
    ensures key in Bindings(attrs, names, sourced) && Bindings(attrs, names, sourced)[key] == attrs[key]
  {
    if names != [] {
      var init := names[..|names| - 1];
      assert forall i :: 0 <= i < |init| ==> init[i] == names[i];
      BindingsFrame(attrs, init, sourced, key);
    }
  }

  /** Where adding instances one by one ends: the outcome, the shared name
      list and the attributes. */
  datatype AddRun = AddRun(outcome: Outcome<ClientError>, names: seq<string>,
                           attrs: map<string, ClientConfig>)

  /** Adding the instances `todo` in order onto the shared list `names` and
      the attributes `attrs`: each name is appended, then its client is bound,
      and the first refused client stops the run. */
  function AddFrom(todo: seq<string>, names: seq<string>, attrs: map<string, ClientConfig>,
                   sourced: (string, string) -> string, accepts: ClientConfig -> bool): AddRun
    decreases |todo|
  {
    if todo == [] then AddRun(Pass, names, attrs)
    else
      var x := todo[0];
      if !Accepted(accepts, x, sourced) then AddRun(Fail(ClientRejected(x)), names + [x], attrs)
      else AddFrom(todo[1..], names + [x], attrs[Sanitize(x) := ClientFor(x, sourced)], sourced, accepts)
  }

  /** Binding one name first and then the rest is binding them all. */
  lemma {:induction false} BindingsCons(attrs: map<string, ClientConfig>, x: string, rest: seq<string>,
                                        sourced: (string, string) -> string)
    ensures Bindings(attrs[Sanitize(x) := ClientFor(x, sourced)], rest, sourced)
            == Bindings(attrs, [x] + rest, sourced)
    decreases |rest|
  {
    if rest == [] {
      assert ([x] + rest)[..0] == [];
    } else {
      var init := rest[..|rest| - 1];
      BindingsCons(attrs, x, init, sourced);
      assert ([x] + rest)[..|[x] + rest| - 1] == [x] + init;
    }
  }

  /** A run in which no client is refused appends every name, binds every
      client and passes. */
  lemma {:induction false} AddFromPasses(todo: seq<string>, names: seq<string>,
                                         attrs: map<string, ClientConfig>,
                                         sourced: (string, string) -> string,
                                         accepts: ClientConfig -> bool)
    requires forall i :: 0 <= i < |todo| ==> Accepted(accepts, todo[i], sourced)
    ensures AddFrom(todo, names, attrs, sourced, accepts)
            == AddRun(Pass, names + todo, Bindings(attrs, todo, sourced))
    decreases |todo|
  {
    if todo != [] {
      var x, rest := todo[0], todo[1..];
      var names', attrs' := names + [x], attrs[Sanitize(x) := ClientFor(x, sourced)];
      assert forall i :: 0 <= i < |rest| ==> rest[i] == todo[i + 1];
      assert todo == [x] + rest;
      assert names' + rest == names + todo;
      calc {
        AddFrom(todo, names, attrs, sourced, accepts);
        AddFrom(rest, names', attrs', sourced, accepts);
        { AddFromPasses(rest, names', attrs', sourced, accepts); }
        AddRun(Pass, names' + rest, Bindings(attrs', rest, sourced));
        { BindingsCons(attrs, x, rest, sourced); }
        AddRun(Pass, names + todo, Bindings(attrs, todo, sourced));
      }
    }
  }

  /** A run in which the client of `todo[k]` is the first refused appends the
      names up to and including it, binds the clients before it and fails. */
  lemma {:induction false} AddFromFails(todo: seq<string>, k: nat, names: seq<string>,
                                        attrs: map<string, ClientConfig>,
                                        sourced: (string, string) -> string,
                                        accepts: ClientConfig -> bool)
    requires k < |todo|
    requires forall i :: 0 <= i < k ==> Accepted(accepts, todo[i], sourced)
    requires !Accepted(accepts, todo[k], sourced)
    ensures AddFrom(todo, names, attrs, sourced, accepts)
            == AddRun(Fail(ClientRejected(todo[k])), names + todo[..k + 1], Bindings(attrs, todo[..k], sourced))
    decreases k
  {
    if k == 0 {
      assert todo[..1] == [todo[0]];
      assert todo[..0] == [];
    } else {
      var x, rest := todo[0], todo[1..];
      var names', attrs' := names + [x], attrs[Sanitize(x) := ClientFor(x, sourced)];
      assert forall i :: 0 <= i < |rest| ==> rest[i] == todo[i + 1];
      assert todo[..k] == [x] + rest[..k - 1];
      assert names' + rest[..k] == names + todo[..k + 1];
      calc {
        AddFrom(todo, names, attrs, sourced, accepts);
        AddFrom(rest, names', attrs', sourced, accepts);
        { AddFromFails(rest, k - 1, names', attrs', sourced, accepts); }
        AddRun(Fail(ClientRejected(todo[k])), names' + rest[..k], Bindings(attrs', rest[..k - 1], sourced));
        { BindingsCons(attrs, x, rest[..k - 1], sourced); }
        AddRun(Fail(ClientRejected(todo[k])), names + todo[..k + 1], Bindings(attrs, todo[..k], sourced));
      }
    }
  }

  /** A run appends every name up to and including the first refused one,
      and binds every name before it; it passes when none is refused. */
  lemma AddFromMeaning(todo: seq<string>, names: seq<string>,
                       attrs: map<string, ClientConfig>,
                       sourced: (string, string) -> string,
                       accepts: ClientConfig -> bool)
    ensures var k := FirstRejected(todo, sourced, accepts);
            var run := AddFrom(todo, names, attrs, sourced, accepts);
            (k == |todo| ==> run == AddRun(Pass, names + todo, Bindings(attrs, todo, sourced)))
            && (k < |todo| ==> run == AddRun(Fail(ClientRejected(todo[k])), names + todo[..k + 1],
                                             Bindings(attrs, todo[..k], sourced)))
  {
    var k := FirstRejected(todo, sourced, accepts);
    if k == |todo| {
      AddFromPasses(todo, names, attrs, sourced, accepts);
    } else {
      AddFromFails(todo, k, names, attrs, sourced, accepts);
    }
  }

  /** The list of instance names that the `Instances` class keeps as a class
      attribute: one list, shared by every object the class builds. */
  class SharedClients {
    var names: seq<string>

    constructor ()
      ensures names == []
    {
      names := [];
    }
  }

  /** An `Instances` object: its clients, bound by sanitised instance name,
      and the class-level list of instance names it shares with every other
      object of the class. */
  class Instances {
    const shared: SharedClients
    var attrs: map<string, ClientConfig>

    /** A fresh object with no client bound yet. */
    constructor (shared: SharedClients)
      ensures this.shared == shared && attrs == map[]
    {
      this.shared := shared;
      attrs := map[];
    }

    /** `add_instance`: appends the name as given to the shared list, then
        binds the instance's client under the sanitised name. The name is
        appended even when the client cannot be built. */
    method AddInstance(instance: string, sourced: (string, string) -> string,
                       accepts: ClientConfig -> bool)
      returns (r: Outcome<ClientError>)
      modifies this, shared
      ensures shared.names == old(shared.names) + [instance]
      ensures r.Pass? <==> Accepted(accepts, instance, sourced)
      ensures r.Pass? ==> attrs == old(attrs)[Sanitize(instance) := ClientFor(instance, sourced)]
      ensures r.Fail? ==> r.error == ClientRejected(instance) && attrs == old(attrs)
    {
      shared.names := shared.names + [instance];
      var client := GetMinioClient(instance, sourced, accepts);
      match client
      case Failure(e) =>
        return Fail(e);
      case Success(c) =>
        attrs := attrs[Sanitize(instance) := c];
        return Pass;
    }

    /** `__init__`: adds every listed instance in order. The first client
        that cannot be built stops it, after its name has been appended. */
    method Init(listing: seq<string>, sourced: (string, string) -> string,
                accepts: ClientConfig -> bool)
      returns (r: Outcome<ClientError>)
      modifies this, shared
      ensures var names := GetInstances(listing);
              var k := FirstRejected(names, sourced, accepts);
              k == |names| ==> r == Pass
                               && shared.names == old(shared.names) + names
                               && attrs == Bindings(old(attrs), names, sourced)
      ensures var names := GetInstances(listing);
              var k := FirstRejected(names, sourced, accepts);
              k < |names| ==> r == Fail(ClientRejected(names[k]))
                              && shared.names == old(shared.names) + names[..k + 1]
                              && attrs == Bindings(old(attrs), names[..k], sourced)
    {
      r := AddAll(GetInstances(listing), sourced, accepts);
      AddFromMeaning(GetInstances(listing), old(shared.names), old(attrs), sourced, accepts);
    }

    /** The loop of `__init__` over the instance list `names`. */
    method AddAll(names: seq<string>, sourced: (string, string) -> string,
                  accepts: ClientConfig -> bool)
      returns (r: Outcome<ClientError>)
      modifies this, shared
      ensures AddRun(r, shared.names, attrs) == AddFrom(names, old(shared.names), old(attrs), sourced, accepts)
    {
      var n := 0;
      while n < |names|
        invariant n <= |names|
        invariant AddFrom(names[n..], shared.names, attrs, sourced, accepts)
                  == AddFrom(names, old(shared.names), old(attrs), sourced, accepts)
      {
        assert names[n..][0] == names[n] && names[n..][1..] == names[n + 1..];
        var added := AddInstance(names[n], sourced, accepts);
        if added.Fail? {
          return added;
        }
        n := n + 1;
      }
      return Pass;
    }
  }

  /** `Instances()`: an object whose construction either completes, or fails
      with the client error raised. The shared list keeps what was appended
      either way. */
  method NewInstances(shared: SharedClients, listing: seq<string>,
                      sourced: (string, string) -> string, accepts: ClientConfig -> bool)
    returns (r: Result<Instances, ClientError>)
    modifies shared
    ensures var names := GetInstances(listing);
            r.Success? <==> forall i :: 0 <= i < |names| ==> Accepted(accepts, names[i], sourced)
    ensures r.Success? ==> r.value.shared == shared
                           && shared.names == old(shared.names) + GetInstances(listing)
                           && r.value.attrs == Bindings(map[], GetInstances(listing), sourced)
    ensures var names := GetInstances(listing);
            r.Failure? ==> exists k :: 0 <= k < |names|
                             && (forall i :: 0 <= i < k ==> Accepted(accepts, names[i], sourced))
                             && !Accepted(accepts, names[k], sourced)
                             && r.error == ClientRejected(names[k])
                             && shared.names == old(shared.names) + names[..k + 1]
  {
    var obj := new Instances(shared);
    var init := obj.Init(listing, sourced, accepts);
    if init.Fail? {
      return Failure(init.error);
    }
    return Success(obj);
  }

  /** Building `Instances` twice over the same listing leaves every instance
      name twice in the shared list. */
  method NewInstancesTwice(shared: SharedClients, listing: seq<string>,
                           sourced: (string, string) -> string, accepts: ClientConfig -> bool)
    returns (first: Result<Instances, ClientError>, second: Result<Instances, ClientError>)
    modifies shared
    requires forall n :: n in GetInstances(listing) ==> Accepted(accepts, n, sourced)
    ensures first.Success? && second.Success?
    ensures shared.names == old(shared.names) + GetInstances(listing) + GetInstances(listing)
  {
    first := NewInstances(shared, listing, sourced, accepts);
    second := NewInstances(shared, listing, sourced, accepts);
  }

  // ---------------------------------------------------------------------
  // Staging a streamed response
  // ---------------------------------------------------------------------

  /** One event of an S3 Select response stream: a `Records` event carries
      a chunk of the result; the others (stats, progress, end) carry none. */
  datatype Event = Records(payload: Bytes) | Other(kind: string)

  /** The response's `Payload` stream: its events in arrival order, and
      whether reading it raised after the last of them. */
  datatype Stream = Stream(events: seq<Event>, broken: bool)

  /** What the staging file holds after `events` have been written: the
      `Records` payloads, concatenated in arrival order. */
  function Staged(events: seq<Event>): (staged: Bytes)
    ensures (forall i :: 0 <= i < |events| ==> events[i].Other?) ==> staged == []
  {
    if events == [] then []
    else
      (match events[0] case Records(p) => p case Other(_) => []) + Staged(events[1..])
  }

  /** Staging two runs of events stages the first run, then the second. */
  lemma {:induction false} StagedAppend(xs: seq<Event>, ys: seq<Event>)
    ensures Staged(xs + ys) == Staged(xs) + Staged(ys)
  {
    if xs == [] {
      assert xs + ys == ys;
    } else {
      assert (xs + ys)[0] == xs[0];
      assert (xs + ys)[1..] == xs[1..] + ys;
      StagedAppend(xs[1..], ys);
    }
  }

  /** Events other than `Records` add nothing; a `Records` event adds its
      payload. */
  lemma StagedOne(e: Event)
    ensures Staged([e]) == (if e.Records? then e.payload else [])
  {
    assert [e][1..] == [];
  }

  /** Writing one more event extends the staged content by its payload, if it
      has one. */
  lemma StagedSnoc(xs: seq<Event>, e: Event)
    ensures e.Records? ==> Staged(xs + [e]) == Staged(xs) + e.payload
    ensures e.Other? ==> Staged(xs + [e]) == Staged(xs)
  {
    StagedAppend(xs, [e]);
    StagedOne(e);
    assert Staged(xs) + [] == Staged(xs);
  }

  /** The message `get_from_s3` prints to standard error when the staging
      file cannot be removed. */
  function RemoveWarning(name: string): string {
    "\nThere was an error removing the file:\n" + name + "\n... Proceeding anyway.\n\n"
  }

  /** The local filesystem: file contents by name, the files whose removal
      fails, and what has been written to standard error. */
  class LocalFs {
    var files: map<string, Bytes>
    var undeletable: set<string>
    var stderr: seq<string>

    constructor (files: map<string, Bytes>, undeletable: set<string>)
      ensures this.files == files && this.undeletable == undeletable && stderr == []
    {
      this.files := files;
      this.undeletable := undeletable;
      stderr := [];
    }

    /** Opens `name` for writing as a new, empty file. */
    method Create(name: string)
      modifies this
      ensures files == old(files)[name := []]
      ensures undeletable == old(undeletable) && stderr == old(stderr)
    {
      files := files[name := []];
    }

    /** Appends `data` to the open file `name`. */
    method Append(name: string, data: Bytes)
      modifies this
      requires name in files
      ensures files == old(files)[name := old(files)[name] + data]
      ensures undeletable == old(undeletable) && stderr == old(stderr)
    {
      files := files[name := files[name] + data];
    }

    /** `os.remove`: fails, changing nothing, on a file that cannot be
        removed. */
    method Remove(name: string) returns (removed: bool)
      modifies this
      ensures removed <==> name !in undeletable
      ensures removed ==> files == old(files) - {name}
      ensures !removed ==> files == old(files)
      ensures undeletable == old(undeletable) && stderr == old(stderr)
    {
      removed := name !in undeletable;
      if removed {
        files := files - {name};
      }
    }

    /** The `for event in r['Payload']` loop: appends the payload of every
        `Records` event to `name`, in order. */
    method WriteEvents(name: string, events: seq<Event>)
      modifies this
      requires name in files
      ensures files == old(files)[name := old(files)[name] + Staged(events)]
      ensures undeletable == old(undeletable) && stderr == old(stderr)
    {
      var i := 0;
      assert events[..0] == [];
      assert old(files)[name] + Staged(events[..0]) == old(files)[name];
      assert files == old(files)[name := old(files)[name]];
      while i < |events|
        invariant 0 <= i <= |events|
        invariant files == old(files)[name := old(files)[name] + Staged(events[..i])]
        invariant undeletable == old(undeletable) && stderr == old(stderr)
      {
        assert events[..i + 1] == events[..i] + [events[i]];
        StagedSnoc(events[..i], events[i]);
        if events[i].Records? {
          var written := files[name];
          Append(name, events[i].payload);
          assert written + events[i].payload == old(files)[name] + Staged(events[..i + 1]);
        }
        i := i + 1;
      }
      assert events[..i] == events;
    }

    /** Writes `text` to standard error. */
    method PrintError(text: string)
      modifies this
      ensures stderr == old(stderr) + [text]
      ensures files == old(files) && undeletable == old(undeletable)
    {
      stderr := stderr + [text];
    }
  }

  /** Why `get_from_s3` raised: reading the stream failed, or the decoder
      rejected the staged file. */
  datatype StagingError = StreamBroken(file: string) | DecodeFailed(file: string)

  /** `get_from_s3`, as wrapped around one reader by `__from_s3__`: writes
      the `Records` payloads of `r` to the fresh file `tempName`, decodes the
      closed file once, then tries to remove it and returns the decoded value
      unchanged. A failed removal is reported on standard error and does not
      change the result. The file is not removed when reading the stream or
      decoding fails. */
  method GetFromS3<T>(fs: LocalFs, tempName: string, r: Stream, decode: Bytes -> Option<T>)
    returns (res: Result<T, StagingError>)
    requires tempName !in fs.files
    modifies fs
    ensures fs.undeletable == old(fs.undeletable)
    ensures r.broken ==> res == Failure(StreamBroken(tempName))
                         && fs.files == old(fs.files)[tempName := Staged(r.events)]
                         && fs.stderr == old(fs.stderr)
    ensures !r.broken && decode(Staged(r.events)).None? ==>
              res == Failure(DecodeFailed(tempName))
              && fs.files == old(fs.files)[tempName := Staged(r.events)]
              && fs.stderr == old(fs.stderr)
    ensures !r.broken && decode(Staged(r.events)).Some? ==>
              res == Success(decode(Staged(r.events)).value)
              && (tempName !in fs.undeletable ==> fs.files == old(fs.files) && fs.stderr == old(fs.stderr))
              && (tempName in fs.undeletable ==>
                    fs.files == old(fs.files)[tempName := Staged(r.events)]
                    && fs.stderr == old(fs.stderr) + [RemoveWarning(tempName)])
  {
    fs.Create(tempName);
    fs.WriteEvents(tempName, r.events);
    assert [] + Staged(r.events) == Staged(r.events);
    assert fs.files == old(fs.files)[tempName := Staged(r.events)];
    if r.broken {
      return Failure(StreamBroken(tempName));
    }
    var resp := decode(fs.files[tempName]);
    if resp.None? {
      return Failure(DecodeFailed(tempName));
    }
    var removed := fs.Remove(tempName);
    if removed {
      assert old(fs.files)[tempName := Staged(r.events)] - {tempName} == old(fs.files);
    } else {
      fs.PrintError(RemoveWarning(tempName));
    }
    return Success(resp.value);
  }
}
