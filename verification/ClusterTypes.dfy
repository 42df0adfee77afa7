// The clusters of the configuration: config/config.go. A registration's schema
// registry and connect clusters carry the same fields as the stored ones, so one
// datatype serves both. A nil and an empty connect list are not told apart.
module ClusterTypes {
  import opened Options

  // Any other text a configuration file may hold where the four methods are expected.
  type UnknownMethod = text: string |
    text != "NONE" && text != "SASL_PLAINTEXT" && text != "SASL_SCRAM_SHA256" && text != "SASL_SCRAM_SHA512"

  datatype AuthMethod = NoAuth | SaslPlaintext | SaslScram256 | SaslScram512 | UnknownAuth(text: UnknownMethod)

  datatype Sasl = Sasl(username: string, password: string, authMethod: AuthMethod)

  datatype Tls = Tls(enable: bool, skipVerify: bool, caCertPath: string, clientCert: string, clientKey: string)

  const NO_TLS := Tls(false, false, "", "", "")

  datatype SchemaRegistry = SchemaRegistry(url: string, username: string, password: string, tls: Tls)

  datatype Connect = Connect(name: string, url: string, username: Option<string>, password: Option<string>)

  datatype Cluster = Cluster(
    name: string,
    color: string,
    active: bool,
    servers: seq<string>,
    sasl: Sasl,
    registry: Option<SchemaRegistry>,
    tls: Tls,
    connects: seq<Connect>)

  datatype Registration = Registration(
    name: string,
    color: string,
    host: string,
    authMethod: AuthMethod,
    tls: Tls,
    newName: Option<string>,
    username: string,
    password: string,
    registry: Option<SchemaRegistry>,
    connects: seq<Connect>)

  predicate IsSasl(m: AuthMethod) {
    m == SaslPlaintext || m == SaslScram256 || m == SaslScram512
  }

  function ToCluster(d: Registration): Cluster {
    Cluster(d.name, d.color, false, [d.host],
            if IsSasl(d.authMethod) then Sasl(d.username, d.password, d.authMethod)
            else if d.authMethod == NoAuth then Sasl("", "", NoAuth)
            else Sasl("", "", UnknownAuth("")),
            d.registry, d.tls, d.connects)
  }
}
