/** The sample JSON API (`SampleApi::main`). */
module SampleApi {
  import opened UserStore

  /** `createResponse($success, $payload)`: the JSON envelope. */
  datatype Envelope = Envelope(success: bool, payload: map<string, string>)

  /**
   * `SampleApi::main`: looks the id up among live rows and answers with the
   * first row's name only, or with the store's not-found message. It only
   * reads the table.
   */
  function Main(t: Table, id: string): (r: Envelope)
    ensures r.success <==> HasLive(t, id)
    ensures r.success ==> r.payload == map["user_name" := Select(t, id, false)[0].userName]
    ensures r.success ==> exists i :: 0 <= i < |t| && Matches(t[i], id, false) && t[i].userName == r.payload["user_name"]
    ensures !r.success ==> r.payload == map["message" := NotFoundMessage]
    ensures |r.payload| == 1
  {
    var result := GetUser(t, id);
    if result.IsSucceed() then
      assert result.data[0] in t;
      Envelope(true, map["user_name" := result.data[0].userName])
    else
      Envelope(false, map["message" := result.message])
  }

  /** A soft-deleted user is reported as missing, because the default lookup skips deleted rows. */
  lemma DeletedUserNotServed(t: Table, id: string)
    ensures Main(DeleteUser(t, id).table, id) == Envelope(false, map["message" := NotFoundMessage])
  {
    var t' := DeleteUser(t, id).table;
    forall i | 0 <= i < |t'| ensures !Matches(t'[i], id, false) {
      assert t'[i] == MarkDeleted(t[i], id);
    }
  }
}
