/** The built-in seed list, present whatever location is searched
    (data/defaultPoints.ts). */
module Seed {
  import opened Wrappers
  import opened Types
  import opened PointLists

  // The seed's texts, kept as named constants.
  const Name1: string := "Banheiro Acessível - Lagoa do Taquaral"
  const Address1: string := "Av. Dr. Heitor Penteado, s/n - Taquaral, Campinas - SP"
  const Description1: string := "Banheiro público acessível próximo ao portão principal do Parque Portugal."
  const Name2: string := "Rampa de Acesso - Mercado Municipal"
  const Address2: string := "Av. Benjamin Constant, s/n - Centro, Campinas - SP"
  const Description2: string := "Rampa de acesso principal na entrada da Avenida Benjamin Constant, facilitando o acesso ao mercado."
  const Name3: string := "Elevador Central - Iguatemi Campinas"
  const Address3: string := "Av. Iguatemi, 777 - Vila Brandina, Campinas - SP"
  const Description3: string := "Elevador panorâmico com acesso a todos os pisos, localizado na praça de alimentação principal do shopping."
  const Name4: string := "Vaga para Deficientes - Prefeitura de Campinas"
  const Address4: string := "Av. Anchieta, 200 - Centro, Campinas - SP"
  const Description4: string := "Vagas de estacionamento reservadas para pessoas com deficiência em frente ao Paço Municipal."
  const Name5: string := "Entrada Acessível - Teatro Castro Mendes"
  const Address5: string := "Rua Conselheiro Gomide, 62 - Vila Industrial, Campinas - SP"
  const Description5: string := "Entrada principal sem degraus e com portas largas para acesso facilitado a cadeiras de rodas."

  /** A seed point: no creator, no custom icon and no ratings. */
  function SeedPoint(id: string, name: string, address: string, kind: PointType,
                     description: string, lat: real, lng: real): Point
  {
    Point(id, name, address, kind, description, Position(lat, lng), None, None, None)
  }

  /** The five seed points, in the order data/defaultPoints.ts lists them. */
  function DefaultPoints(): (s: seq<Point>)
    ensures |s| == 5
    ensures s[0].id == "default-1" && s[1].id == "default-2" && s[2].id == "default-3"
    ensures s[3].id == "default-4" && s[4].id == "default-5"
  {
    [ SeedPoint("default-1", Name1, Address1, Restroom, Description1, -22.8797, -47.0505),
      SeedPoint("default-2", Name2, Address2, Ramp, Description2, -22.9054, -47.0634),
      SeedPoint("default-3", Name3, Address3, Elevator, Description3, -22.8953, -47.0232),
      SeedPoint("default-4", Name4, Address4, Parking, Description4, -22.9032, -47.0583),
      SeedPoint("default-5", Name5, Address5, Entrance, Description5, -22.9110, -47.0760) ]
  }

  /** The seed has no repeated ids and carries no creator, icon or ratings, so
      the first update of a seed point assigns its owner and its first rating
      starts from an empty list; it uses five different kinds, never
      `Unknown`. */
  lemma SeedIsWellFormed()
    ensures Distinct(DefaultPoints())
    ensures forall p :: p in DefaultPoints() ==>
              p.creatorId.None? && p.customIcon.None? && p.ratings.None?
    ensures forall p :: p in DefaultPoints() ==> p.kind != Unknown
    ensures forall i, j :: 0 <= i < j < |DefaultPoints()| ==>
              DefaultPoints()[i].kind != DefaultPoints()[j].kind
  {
  }
}
