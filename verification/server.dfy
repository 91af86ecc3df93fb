/** The two pieces of server/server.go with logic in them: the address `Run`
    listens on, and the fixed health-check reply. */
module Server {
  import opened Text
  import opened Http

  /** `Run`'s address: a port given without its leading colon gets one. */
  function NormalizePort(port: string): (p: string)
    ensures StartsWith(p, ":")
    ensures StartsWith(port, ":") ==> p == port
    ensures !StartsWith(port, ":") ==> p == ":" + port
  {
    if StartsWith(port, ":") then port else ":" + port
  }

  /** Normalising an address a second time changes nothing. */
  lemma NormalizePortIdempotent(port: string)
    ensures NormalizePort(NormalizePort(port)) == NormalizePort(port)
  {
  }

  /** "8080" and ":8080" name the same address; two ports that both lack
      the colon, or both carry it, name the same address only when equal. */
  lemma NormalizePortSameAddress(a: string, b: string)
    ensures !StartsWith(b, ":") ==> NormalizePort(":" + b) == NormalizePort(b)
    ensures StartsWith(a, ":") == StartsWith(b, ":") ==>
      (NormalizePort(a) == NormalizePort(b) <==> a == b)
  {
    if !StartsWith(b, ":") {
      assert StartsWith(":" + b, ":");
    }
    if StartsWith(a, ":") == StartsWith(b, ":") && NormalizePort(a) == NormalizePort(b) && !StartsWith(a, ":") {
      assert a == (":" + a)[1..] && b == (":" + b)[1..];
    }
  }

  /** `healthCheck`: always 200 with the status and message keys. */
  function HealthCheck(): (r: Response)
    ensures r.status == StatusOK
    ensures r.headers == map["Content-Type" := "application/json"]
    ensures r.body.Some? && r.body.value.JObject?
    ensures r.body.value.fields.Keys == {"status", "message"}
    ensures r.body.value.fields["status"] == JString("available")
    ensures r.body.value.fields["message"] == JString("health")
  {
    WriteJson(StatusOK, JObject(map["status" := JString("available"), "message" := JString("health")]))
  }
}
