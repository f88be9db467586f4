/** The store actions of the audiobook player: session persistence and
    restore, login, book records kept per content hash, and the media cache.
    The key-value persistence store, the commit callback and the platform
    cache storage are fields of one `App` object; network answers are
    parameters of the methods that would have fetched them. */
module Actions {
  import opened JsValues
  import opened MediaTypes
  import opened Descriptions

  /** A `context.commit(mutation, payload)` call. */
  datatype Commit = Commit(mutation: string, payload: Value)

  /** A file named in the current folder's metadata; its `path` may be missing. */
  datatype FileRef = FileRef(path: Option<string>)

  /** `state.folder`: the folder's description file and cover image, each possibly absent. */
  datatype Folder = Folder(description: Option<FileRef>, cover: Option<FileRef>)

  /** What the description request answered: declared content type and body text. */
  datatype DescResponse = DescResponse(mime: Option<string>, body: string)

  /** A media response: its content-type header and its body. */
  datatype Response = Response(contentType: Option<string>, body: seq<bv8>)

  /** `{ src, format }` handed to the player; the blob URL in `src` is
      represented by the bytes it was made from. */
  datatype Playable = Playable(src: seq<bv8>, format: string)

  /** What `getCachedFile` ends with. Miss is the failure the source reaches
      when it reads the headers of a match that is not there. */
  datatype CachedFile = Hit(file: Playable) | Miss

  /** The persistence keys of the session, in the order they are written and read. */
  const SessionKeys: seq<string> := ["server", "group", "loginStatus", "collections", "currentCollection"]

  /** `localForage.getItem`: null for a key that was never written. */
  function Lookup(store: map<string, Value>, key: string): (v: Value)
  {
    if key in store then store[key] else Null
  }

  /** The store entries that `setDetails(context, data)` writes. */
  function Snapshot(data: map<string, Value>): (written: map<string, Value>)
  {
    map["server" := Prop(data, "server"), "group" := Prop(data, "group"),
        "loginStatus" := Prop(data, "loginStatus"), "collections" := Prop(data, "collections"),
        "currentCollection" := Prop(data, "currentCollection")]
  }

  /** The commit `initialiseApp` issues for one persisted key: only a truthy value is committed. */
  function RestoreKey(key: string, store: map<string, Value>): (issued: seq<Commit>)
  {
    if Truthy(Lookup(store, key)) then [Commit(key, Lookup(store, key))] else []
  }

  /** The commits `initialiseApp` issues, in the order of `SessionKeys`. */
  function Restored(store: map<string, Value>): (issued: seq<Commit>)
  {
    RestoreKey("server", store) + RestoreKey("group", store) + RestoreKey("loginStatus", store)
    + RestoreKey("collections", store) + RestoreKey("currentCollection", store)
  }

  /** A commit is issued exactly for a session key whose stored value is
      truthy, and it carries that value. */
  lemma RestoredMembers(store: map<string, Value>)
    ensures forall c :: c in Restored(store) <==>
      c.mutation in SessionKeys && Truthy(Lookup(store, c.mutation)) && c.payload == Lookup(store, c.mutation)
  {
    forall c
      ensures c in Restored(store) <==>
        c.mutation in SessionKeys && Truthy(Lookup(store, c.mutation)) && c.payload == Lookup(store, c.mutation)
    {
      ConcatMembers(c, RestoreKey("server", store), RestoreKey("group", store), RestoreKey("loginStatus", store),
        RestoreKey("collections", store), RestoreKey("currentCollection", store));
    }
  }

  /** Appending five sequences one after another is appending them joined. */
  lemma AppendFive<T>(s0: seq<T>, s1: seq<T>, s2: seq<T>, s3: seq<T>, s4: seq<T>, s5: seq<T>)
    ensures s0 + s1 + s2 + s3 + s4 + s5 == s0 + (s1 + s2 + s3 + s4 + s5)
  {
  }

  /** Membership in five sequences joined. */
  lemma ConcatMembers<T>(x: T, s1: seq<T>, s2: seq<T>, s3: seq<T>, s4: seq<T>, s5: seq<T>)
    ensures x in s1 + s2 + s3 + s4 + s5 <==> x in s1 || x in s2 || x in s3 || x in s4 || x in s5
  {
  }

  /** `initialiseApp` with only `server` persisted (and truthy) commits
      `server` once and nothing else. */
  lemma RestoreOnlyServer(store: map<string, Value>)
    requires store.Keys == {"server"} && Truthy(store["server"])
    ensures Restored(store) == [Commit("server", store["server"])]
  {
    SessionKeysDistinct();
  }

  /** What `setDetails` writes, `initialiseApp` reads back: the restored commits
      are those of the truthy fields of the data that was persisted, whatever
      the store held before. */
  lemma PersistedSessionRestores(store: map<string, Value>, data: map<string, Value>)
    ensures Restored(store + Snapshot(data)) == Restored(data)
  {
    PersistedKeyRestores(store, data, "server");
    PersistedKeyRestores(store, data, "group");
    PersistedKeyRestores(store, data, "loginStatus");
    PersistedKeyRestores(store, data, "collections");
    PersistedKeyRestores(store, data, "currentCollection");
  }

  lemma PersistedKeyRestores(store: map<string, Value>, data: map<string, Value>, k: string)
    requires k in SessionKeys
    ensures RestoreKey(k, store + Snapshot(data)) == RestoreKey(k, data)
  {
    SnapshotAt(data, k);
  }

  /** Each session key is written, with the value `data` has for it. */
  lemma SnapshotAt(data: map<string, Value>, k: string)
    requires k in SessionKeys
    ensures k in Snapshot(data) && Snapshot(data)[k] == Prop(data, k)
  {
    SessionKeysDistinct();
  }

  /** The session keys are five different names. */
  lemma SessionKeysDistinct()
    ensures "server" != "group" && "server" != "loginStatus" && "server" != "collections"
    ensures "server" != "currentCollection" && "group" != "loginStatus" && "group" != "collections"
    ensures "group" != "currentCollection" && "loginStatus" != "collections"
    ensures "loginStatus" != "currentCollection" && "collections" != "currentCollection"
  {
    assert "loginStatus"[0] != "collections"[0];
  }

  /** Five writes in a row leave what one union with all five entries leaves. */
  lemma UpdatesAreUnion(m: map<string, Value>, k1: string, k2: string, k3: string, k4: string, k5: string,
                        v1: Value, v2: Value, v3: Value, v4: Value, v5: Value)
    ensures m[k1 := v1][k2 := v2][k3 := v3][k4 := v4][k5 := v5]
         == m + map[k1 := v1, k2 := v2, k3 := v3, k4 := v4, k5 := v5]
  {
  }

  /** A login without a secret is remembered: after the session it persists,
      `initialiseApp` commits `loginStatus = true`. */
  lemma NoSecretLoginIsRemembered(store: map<string, Value>, data: map<string, Value>)
    ensures Commit("loginStatus", Bool(true)) in Restored(store + Snapshot(data["loginStatus" := Bool(true)]))
  {
    var persisted := data["loginStatus" := Bool(true)];
    PersistedSessionRestores(store, persisted);
    RestoredMembers(persisted);
  }

  /** `folder.description && folder.description.path`: a non-empty path is given. */
  predicate DescriptionWanted(folder: Folder)
  {
    folder.description.Some? && folder.description.value.path.Some? && folder.description.value.path.value != ""
  }

  /** A path as string concatenation renders it: a missing one reads "undefined". */
  function PathText(path: Option<string>): (text: string)
  {
    if path.Some? then path.value else "undefined"
  }

  /** The rendered description as a JavaScript value: undefined when the content type was not recognised. */
  function HtmlValue(html: Option<string>): (v: Value)
  {
    if html.Some? then Str(html.value) else Undefined
  }

  /** The `description` field of a new book. */
  function DescriptionField(folder: Folder, desc: DescResponse, marked: string -> string): (v: Value)
  {
    if DescriptionWanted(folder) then HtmlValue(Describe(desc.mime, desc.body, marked)) else Null
  }

  /** The `cover` field of a new book. */
  function CoverField(server: string, folder: Folder): (v: Value)
  {
    if folder.cover.Some? then Str(server + "cover/" + PathText(folder.cover.value.path)) else Null
  }

  /** The record `getBookDetails` creates for a hash it has not seen. */
  function DefaultBook(hash: string, description: Value, cover: Value): (book: Value)
  {
    Obj(map["hash" := Str(hash), "name" := Str("Unknown"), "author" := Str("Unknown"),
            "description" := description, "cover" := cover, "seek" := Num(0.0)])
  }

  /** The book `getBookDetails` commits: the stored record when it is truthy, a new default one otherwise. */
  function LoadedBook(store: map<string, Value>, hash: string, server: string, folder: Folder,
                      desc: DescResponse, marked: string -> string): (book: Value)
  {
    var stored := Lookup(store, hash);
    if Truthy(stored) then stored
    else DefaultBook(hash, DescriptionField(folder, desc, marked), CoverField(server, folder))
  }

  /** A new book is keyed by its hash, is named and authored "Unknown", starts
      at offset 0, has a cover exactly when the folder has one, and has a
      description (possibly undefined) exactly when the folder names a
      description path; the description is text only when its content type
      was recognised. */
  lemma NewBookDefaults(store: map<string, Value>, hash: string, server: string, folder: Folder,
                        desc: DescResponse, marked: string -> string)
    requires !Truthy(Lookup(store, hash))
    ensures var b := LoadedBook(store, hash, server, folder, desc, marked);
      && b.Obj?
      && b.fields.Keys == {"hash", "name", "author", "description", "cover", "seek"}
      && b.fields["hash"] == Str(hash)
      && b.fields["name"] == Str("Unknown") && b.fields["author"] == Str("Unknown")
      && b.fields["seek"] == Num(0.0)
      && (b.fields["cover"] != Null <==> folder.cover.Some?)
      && (folder.cover.Some? ==> b.fields["cover"] == Str(server + "cover/" + PathText(folder.cover.value.path)))
      && (b.fields["description"] != Null <==> DescriptionWanted(folder))
      && (b.fields["description"].Str? <==> DescriptionWanted(folder) && Describe(desc.mime, desc.body, marked).Some?)
  {
  }

  /** A truthy stored record is what gets committed, unchanged. */
  lemma StoredBookKept(store: map<string, Value>, hash: string, server: string, folder: Folder,
                       desc: DescResponse, marked: string -> string)
    requires Truthy(Lookup(store, hash))
    ensures LoadedBook(store, hash, server, folder, desc, marked) == store[hash]
  {
  }

  /** `{ ...current, ...updates }`: a shallow merge in which the updates win. */
  function Merge(current: Value, updates: Value): (merged: Value)
  {
    Obj(Spread(current) + Spread(updates))
  }

  /** Every key of the updates takes the update's value; every other key of
      the current record keeps its value; no other key appears. */
  lemma MergeOverrides(current: Value, updates: Value)
    ensures var m := Merge(current, updates).fields;
      && m.Keys == Spread(current).Keys + Spread(updates).Keys
      && (forall k :: k in Spread(updates) ==> m[k] == Spread(updates)[k])
      && (forall k :: k in Spread(current) && k !in Spread(updates) ==> m[k] == Spread(current)[k])
  {
  }

  /** Applying the same updates twice is applying them once. */
  lemma MergeIdempotent(current: Value, updates: Value)
    ensures Merge(Merge(current, updates), updates) == Merge(current, updates)
  {
  }

  /** A stored value that carries a `hash` property is a book record. */
  predicate IsBookRecord(v: Value)
  {
    v.Obj? && "hash" in v.fields
  }

  /** Every book record is stored under its own hash. */
  predicate KeyedByHash(store: map<string, Value>)
  {
    forall k :: k in store && IsBookRecord(store[k]) ==> store[k].fields["hash"] == Str(k)
  }

  /** Writing `v` under `key` keeps the store keyed by hash exactly when `v`,
      if it is a book record, names `key` as its hash. */
  lemma WriteKeepsKeys(store: map<string, Value>, key: string, v: Value)
    requires KeyedByHash(store)
    ensures KeyedByHash(store[key := v]) <==> (IsBookRecord(v) ==> v.fields["hash"] == Str(key))
  {
    if KeyedByHash(store[key := v]) {
      assert key in store[key := v] && store[key := v][key] == v;
    }
  }

  /** Loading a book keeps the store keyed by hash: a new record is written
      under the hash it carries. */
  lemma LoadKeepsKeys(store: map<string, Value>, hash: string, server: string, folder: Folder,
                      desc: DescResponse, marked: string -> string)
    requires KeyedByHash(store)
    ensures var b := LoadedBook(store, hash, server, folder, desc, marked);
      KeyedByHash(if Truthy(Lookup(store, hash)) then store else store[hash := b])
  {
    var b := LoadedBook(store, hash, server, folder, desc, marked);
    if !Truthy(Lookup(store, hash)) {
      WriteKeepsKeys(store, hash, b);
    }
  }

  /** Replacing a record under the hash it carries keeps the store keyed by hash. */
  lemma ReplaceKeepsKeys(store: map<string, Value>, b: Value)
    requires KeyedByHash(store)
    requires b.Obj? && "hash" in b.fields && b.fields["hash"].Str?
    ensures KeyedByHash(store[b.fields["hash"].s := b])
  {
    WriteKeepsKeys(store, b.fields["hash"].s, b);
  }

  /** Storing a merged record under `hash` keeps the store keyed by hash
      exactly when the merge leaves `hash` as its hash: the caller must name
      the current book's hash, and the updates must not change it. */
  lemma MergeKeepsKeysIff(store: map<string, Value>, hash: string, current: Value, updates: Value)
    requires KeyedByHash(store)
    ensures KeyedByHash(store[hash := Merge(current, updates)]) <==>
      ("hash" in Spread(updates) ==> Spread(updates)["hash"] == Str(hash))
      && ("hash" !in Spread(updates) && "hash" in Spread(current) ==> Spread(current)["hash"] == Str(hash))
  {
    WriteKeepsKeys(store, hash, Merge(current, updates));
  }

  /** Updating book "A" (at offset 1) with a new offset, but naming hash "B",
      stores under "B" a record whose hash is "A". */
  lemma UpdateUnderOtherHash()
    ensures var current := Obj(map["hash" := Str("A"), "seek" := Num(1.0)]);
      var stored := map[]["B" := Merge(current, Obj(map["seek" := Num(5.0)]))];
      stored["B"].fields["hash"] == Str("A") && !KeyedByHash(stored)
  {
    var current := Obj(map["hash" := Str("A"), "seek" := Num(1.0)]);
    var merged := Merge(current, Obj(map["seek" := Num(5.0)]));
    assert merged.fields["hash"] == Str("A");
    assert "A" != "B";
    WriteKeepsKeys(map[], "B", merged);
  }

  /** Updates that carry a `hash` rewrite the hash of the record stored under the old one. */
  lemma UpdateRewritesHash()
    ensures var current := Obj(map["hash" := Str("A")]);
      var stored := map[]["A" := Merge(current, Obj(map["hash" := Str("Z")]))];
      stored["A"].fields["hash"] == Str("Z") && !KeyedByHash(stored)
  {
    var merged := Merge(Obj(map["hash" := Str("A")]), Obj(map["hash" := Str("Z")]));
    assert merged.fields["hash"] == Str("Z");
    assert "Z" != "A";
    WriteKeepsKeys(map[], "A", merged);
  }

  /** Which reading of `collections.names` the login handler gets: None when
      the collections request failed or returned null (reading a property of
      null throws, and the error is only logged). */
  function NamesOf(collections: Option<Value>): (names: Option<Value>)
  {
    match collections
    case None => None
    case Some(Undefined) => None
    case Some(Null) => None
    case Some(Obj(fields)) => Some(Prop(fields, "names"))
    case Some(_) => Some(Undefined)
  }

  /** The entries of cache namespace `name` after `caches.open(name)`, which creates it empty when missing. */
  function Opened(caches: map<string, map<string, Response>>, name: string): (entries: map<string, Response>)
  {
    if name in caches then caches[name] else map[]
  }

  /** The blob URL and extension made from a response. */
  function PlayableOf(r: Response): (p: Playable)
  {
    Playable(r.body, ContentToExtension(r.contentType))
  }

  class App {
    /** The key-value persistence store. */
    var store: map<string, Value>
    /** Every commit issued, oldest first. */
    var commits: seq<Commit>
    /** The platform cache storage: namespace, then request URL. */
    var caches: map<string, map<string, Response>>
    /** `state.book`, the book most recently committed. */
    var book: Value
    /** The parts of the UI state that these actions read and never change. */
    const server: string
    const cacheKey: string
    const folder: Folder

    constructor (server: string, cacheKey: string, folder: Folder,
                 store: map<string, Value>, caches: map<string, map<string, Response>>, book: Value)
      ensures this.server == server && this.cacheKey == cacheKey && this.folder == folder
      ensures this.store == store && this.caches == caches && this.book == book && commits == []
    {
      this.server, this.cacheKey, this.folder := server, cacheKey, folder;
      this.store, this.caches, this.book := store, caches, book;
      commits := [];
    }

    /** `setDetails`: the five session keys are written, each from `data`
        (undefined when `data` lacks it); nothing else changes. */
    method SetDetails(data: map<string, Value>)
      modifies this`store
      ensures store == old(store) + Snapshot(data)
    {
      UpdatesAreUnion(store, "server", "group", "loginStatus", "collections", "currentCollection",
        Prop(data, "server"), Prop(data, "group"), Prop(data, "loginStatus"),
        Prop(data, "collections"), Prop(data, "currentCollection"));
      store := store["server" := Prop(data, "server")];
      store := store["group" := Prop(data, "group")];
      store := store["loginStatus" := Prop(data, "loginStatus")];
      store := store["collections" := Prop(data, "collections")];
      store := store["currentCollection" := Prop(data, "currentCollection")];
    }

    /** `login`, up to its return. Without a truthy secret: `loginsecret =
        'noauth'` and `loginStatus = true` are committed and the session is
        persisted with `loginStatus` true. With one, the credential request is
        started (not modelled) and the same steps run with null and false. */
    method Login(data: map<string, Value>)
      modifies this`store, this`commits
      ensures var noSecret := !Truthy(Prop(data, "secret"));
        && commits == old(commits) + [Commit("loginsecret", if noSecret then Str("noauth") else Null),
                                      Commit("loginStatus", Bool(noSecret))]
        && store == old(store) + Snapshot(data["loginStatus" := Bool(noSecret)])
    {
      var loginStatus := false;
      var loginsecret := Null;
      if !Truthy(Prop(data, "secret")) {
        loginStatus := true;
        loginsecret := Str("noauth");
      }
      commits := commits + [Commit("loginsecret", loginsecret)];
      commits := commits + [Commit("loginStatus", Bool(loginStatus))];
      SetDetails(data["loginStatus" := Bool(loginStatus)]);
    }

    /** The handler that runs once the credential request of `login` has
        answered: `loginStatus = true` is committed, then, given the
        collections the server listed, the session is persisted with those
        names and collection 0. If reading the names throws, only the commit
        has happened. */
    method OnAuthenticated(data: map<string, Value>, collections: Option<Value>)
      modifies this`store, this`commits
      ensures commits == old(commits) + [Commit("loginStatus", Bool(true))]
      ensures store == match NamesOf(collections)
        case None => old(store)
        case Some(names) =>
          old(store) + Snapshot(data["loginStatus" := Bool(true)]["collections" := names]["currentCollection" := Num(0.0)])
    {
      commits := commits + [Commit("loginStatus", Bool(true))];
      var names := NamesOf(collections);
      if names.Some? {
        SetDetails(data["loginStatus" := Bool(true)]["collections" := names.value]["currentCollection" := Num(0.0)]);
      }
    }

    /** `initialiseApp`: each session key is read, and committed when its
        value is truthy, in the order of `SessionKeys`. Nothing is written. */
    method InitialiseApp()
      modifies this`commits
      ensures commits == old(commits) + Restored(store)
    {
      var server := Lookup(store, "server");
      var group := Lookup(store, "group");
      var loginStatus := Lookup(store, "loginStatus");
      var collections := Lookup(store, "collections");
      var currentCollection := Lookup(store, "currentCollection");
      ghost var before := commits;
      CommitIfTruthy("server", server);
      assert commits == before + RestoreKey("server", store);
      CommitIfTruthy("group", group);
      assert commits == before + RestoreKey("server", store) + RestoreKey("group", store);
      CommitIfTruthy("loginStatus", loginStatus);
      assert commits == before + RestoreKey("server", store) + RestoreKey("group", store)
                       + RestoreKey("loginStatus", store);
      CommitIfTruthy("collections", collections);
      assert commits == before + RestoreKey("server", store) + RestoreKey("group", store)
                       + RestoreKey("loginStatus", store) + RestoreKey("collections", store);
      CommitIfTruthy("currentCollection", currentCollection);
      assert commits == before + RestoreKey("server", store) + RestoreKey("group", store)
                       + RestoreKey("loginStatus", store) + RestoreKey("collections", store)
                       + RestoreKey("currentCollection", store);
      AppendFive(before, RestoreKey("server", store), RestoreKey("group", store),
        RestoreKey("loginStatus", store), RestoreKey("collections", store), RestoreKey("currentCollection", store));
    }

    /** `if (value) context.commit(mutation, value)`. */
    method CommitIfTruthy(mutation: string, value: Value)
      modifies this`commits
      ensures commits == old(commits) + if Truthy(value) then [Commit(mutation, value)] else []
    {
      if Truthy(value) {
        commits := commits + [Commit(mutation, value)];
      }
    }

    /** `getFolderDescription`: the rendered description is committed. */
    method GetFolderDescription(desc: DescResponse, marked: string -> string)
      modifies this`commits
      ensures commits == old(commits) + [Commit("folderDescription", HtmlValue(Describe(desc.mime, desc.body, marked)))]
    {
      var description := GetDescription(desc.mime, desc.body, marked);
      commits := commits + [Commit("folderDescription", HtmlValue(description))];
    }

    /** `getBookDetails`: a truthy stored record is committed and nothing is
        written; otherwise a default record is stored under `hash` and
        committed. `desc` is what the description request would answer. */
    method GetBookDetails(hash: string, desc: DescResponse, marked: string -> string)
      modifies this`store, this`commits, this`book
      ensures book == LoadedBook(old(store), hash, server, folder, desc, marked)
      ensures store == if Truthy(Lookup(old(store), hash)) then old(store) else old(store)[hash := book]
      ensures commits == old(commits) + [Commit("book", book)]
      ensures KeyedByHash(old(store)) ==> KeyedByHash(store)
    {
      if KeyedByHash(store) {
        LoadKeepsKeys(store, hash, server, folder, desc, marked);
      }
      var b := Lookup(store, hash);
      if !Truthy(b) {
        var description := Null;
        if DescriptionWanted(folder) {
          var html := GetDescription(desc.mime, desc.body, marked);
          description := HtmlValue(html);
        }
        var cover := Null;
        if folder.cover.Some? {
          cover := Str(server + "cover/" + PathText(folder.cover.value.path));
        }
        b := DefaultBook(hash, description, cover);
        store := store[hash := b];
      }
      commits := commits + [Commit("book", b)];
      book := b;
    }

    /** `updateBookDetails`: the current book overridden by `updates` is
        stored under `hash` and committed. The store stays keyed by hash
        exactly when the merged record names `hash` as its own; the caller is
        trusted to pass matching values. */
    method UpdateBookDetails(hash: string, updates: Value)
      modifies this`store, this`commits, this`book
      ensures book == Merge(old(book), updates)
      ensures store == old(store)[hash := book]
      ensures commits == old(commits) + [Commit("book", book)]
      ensures KeyedByHash(old(store)) ==>
        (KeyedByHash(store) <==> (IsBookRecord(book) ==> book.fields["hash"] == Str(hash)))
    {
      var b := Merge(book, updates);
      if KeyedByHash(store) {
        WriteKeepsKeys(store, hash, b);
      }
      store := store[hash := b];
      commits := commits + [Commit("book", b)];
      book := b;
    }

    /** `setBookDetails`: the whole record replaces whatever its hash held, and is committed. */
    method SetBookDetails(b: Value)
      requires b.Obj? && "hash" in b.fields && b.fields["hash"].Str?
      modifies this`store, this`commits, this`book
      ensures store == old(store)[b.fields["hash"].s := b]
      ensures book == b && commits == old(commits) + [Commit("book", b)]
      ensures KeyedByHash(old(store)) ==> KeyedByHash(store)
    {
      if KeyedByHash(store) {
        ReplaceKeepsKeys(store, b);
      }
      store := store[b.fields["hash"].s := b];
      commits := commits + [Commit("book", b)];
      book := b;
    }

    /** Loading a book, setting its playback offset and loading it again gives
        the first record with only `seek` changed. */
    method ReloadAfterSeek(hash: string, desc: DescResponse, marked: string -> string, n: real)
      modifies this`store, this`commits, this`book
      ensures book == Obj(Spread(LoadedBook(old(store), hash, server, folder, desc, marked))["seek" := Num(n)])
      ensures book.fields["seek"] == Num(n)
    {
      GetBookDetails(hash, desc, marked);
      UpdateBookDetails(hash, Obj(map["seek" := Num(n)]));
      GetBookDetails(hash, desc, marked);
    }

    /** `fileIsCached`: true exactly when the namespace of `hash` exists and
        holds an entry for `file`. Nothing changes. */
    method FileIsCached(hash: string, file: string) returns (cached: bool)
      ensures cached <==> (cacheKey + hash in caches && file in caches[cacheKey + hash])
    {
      var cacheName := cacheKey + hash;
      var present := cacheName in caches;
      if present {
        var cacheStorage := caches[cacheName];
        return file in cacheStorage;
      }
      return false;
    }

    /** `getCachedFile`: opening the namespace creates it if missing; a
        stored entry becomes a playable source, and a missing one is a Miss. */
    method GetCachedFile(hash: string, file: string) returns (r: CachedFile)
      modifies this`caches
      ensures caches == old(caches)[cacheKey + hash := Opened(old(caches), cacheKey + hash)]
      ensures var entries := Opened(old(caches), cacheKey + hash);
        r == if file in entries then Hit(PlayableOf(entries[file])) else Miss
    {
      var cacheName := cacheKey + hash;
      var cacheStorage := Opened(caches, cacheName);
      caches := caches[cacheName := cacheStorage];
      if file in cacheStorage {
        var cachedResponse := cacheStorage[file];
        r := Hit(Playable(cachedResponse.body, ContentToExtension(cachedResponse.contentType)));
      } else {
        r := Miss;
      }
    }

    /** `cacheFile`: the fetched response is put into the namespace of `hash`
        under `file`, replacing any earlier entry, and is returned. */
    method CacheFile(hash: string, file: string, fetched: Response) returns (response: Response)
      modifies this`caches
      ensures caches == old(caches)[cacheKey + hash := Opened(old(caches), cacheKey + hash)[file := fetched]]
      ensures response == fetched
    {
      var cacheName := cacheKey + hash;
      var cacheStorage := Opened(caches, cacheName);
      response := fetched;
      caches := caches[cacheName := cacheStorage[file := fetched]];
    }

    /** `tempCache`: a cached file is served from the cache and the caches stay
        as they were; otherwise `fetched` is cached and served. Either way the
        file is cached afterwards, so a second call is served from the cache. */
    method TempCache(hash: string, file: string, fetched: Response) returns (p: Playable)
      modifies this`caches
      ensures var name := cacheKey + hash;
        if name in old(caches) && file in old(caches)[name] then
          caches == old(caches) && p == PlayableOf(old(caches)[name][file])
        else
          caches == old(caches)[name := Opened(old(caches), name)[file := fetched]] && p == PlayableOf(fetched)
      ensures cacheKey + hash in caches && file in caches[cacheKey + hash]
    {
      var alreadyCached := FileIsCached(hash, file);
      if alreadyCached {
        assert caches[cacheKey + hash := Opened(caches, cacheKey + hash)] == caches;
        var r := GetCachedFile(hash, file);
        return r.file;
      }
      var response := CacheFile(hash, file, fetched);
      p := Playable(response.body, ContentToExtension(response.contentType));
    }
  }
}
