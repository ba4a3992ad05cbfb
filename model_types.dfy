/** The records of src/model.rs:15-42 that the crawl collects. */
module ModelTypes {

  /** A network interface: its name and its addresses as `ip --brief address show` prints them. */
  datatype Interface = Interface(name: string, addresses: seq<string>)

  /** A listening process: its name and its `bindaddr:port/protocol` sockets. */
  datatype Process = Process(name: string, addresses: seq<string>)

  /** An established connection seen on `host`. */
  datatype Connection = Connection(host: string, process: string, localAddr: string, localPort: string,
                                   remoteAddr: string, remotePort: string)

  /** A crawled machine. */
  datatype Machine = Machine(hostname: string, interfaces: seq<Interface>, processes: seq<Process>)
}
