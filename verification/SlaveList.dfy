/** The fields of a slave record that topology and delay measurement use (ec_main.h). */
module SlaveList {
  datatype Slave = Slave(
    topology: nat,        // number of links
    activeports: bv8,     // bit p: port p has a link
    consumedports: bv8,
    parent: nat,          // number of the parent, 0 is the master
    hasdc: bool,
    entryport: nat,
    parentport: nat,
    DCrtA: int,
    DCrtB: int,
    DCrtC: int,
    DCrtD: int,
    pdelay: int,
    DCnext: nat,
    DCprevious: nat
  )
}
