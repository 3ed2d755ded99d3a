/** The shared vocabulary of the entity/component core (Source/Core/ECS/Types.hpp). */
module Types {

  /** An entity handle (`uint32_t` in the source). Ids are kept below the capacity of the
      containers they index, so the model uses naturals. */
  type Entity = nat

  /** Number of bits in a signature, and so the number of component kinds one signature can name. */
  const COMPONENT_COUNT: nat := 32

  /** `std::bitset<32>`: bit t set means the entity carries the component kind with id t. */
  type Signature = bv32

  /** `uint8_t`: the id a registered component kind is bound to. */
  type ComponentType = t: nat | t < 256

  /** The filter test used by entity queries: every bit of `filter` is also set in `signature`. */
  predicate Satisfies(signature: Signature, filter: Signature)
  {
    signature & filter == filter
  }
}
