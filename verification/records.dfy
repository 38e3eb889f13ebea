/** The record shape of `database.Client`, shared by the gorm-backed
    handlers, the address pool and the peer reconciler. */
module Records {
  import opened AddressPool

  /** A client row. `key` is the primary key as the route parameter spells
      it; `allowedIp4` is the client's address string. */
  datatype DbClient = DbClient(key: string, name: string, allowedIp4: IpText, publicKey: string)
}
