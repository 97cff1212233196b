/** Lists of vertices kept by vertex. */
module Linking {
  type Links = map<nat, seq<nat>>

  function Of(links: Links, v: nat): seq<nat> {
    if v in links then links[v] else []
  }
}
